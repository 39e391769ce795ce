/** The LV2 URID "map" feature of src/feature.rs: a table that interns URIs as `u32`
    ids drawn from a counter starting at 1, the C-callable trampoline that exposes it
    through an `LV2_URID_Map` handle, and the conversion of a raw `LV2_Feature` back
    into a map. The reader/writer lock and the atomic counter are modelled sequentially:
    one call runs to completion before the next begins. */
module UridMap {
  import opened Common

  type Uri = string

  /** The feature URI of the URID map in the LV2 URID extension. */
  const UridMapUri: Uri := "http://lv2plug.in/ns/ext/urid#map"

  /** `UridMapFeatureNativeImpl`: the interning table and the next id to issue. */
  datatype NativeMap = NativeMap(ids: map<Uri, u32>, nextId: u32)

  /** What the native table promises while its counter has not wrapped: every id
      lies in [1, nextId), no two URIs share an id, and exactly nextId - 1 ids have
      been issued. */
  ghost predicate Valid(m: NativeMap) {
    && 1 <= m.nextId
    && |m.ids| == m.nextId - 1
    && (forall u :: u in m.ids ==> 1 <= m.ids[u] < m.nextId)
    && (forall u, v :: u in m.ids && v in m.ids && u != v ==> m.ids[u] != m.ids[v])
  }

  /** `AtomicU32::fetch_add(1)` stores the successor modulo 2^32. */
  function WrappingInc(x: u32): (r: u32)
    ensures x < U32Max ==> r == x + 1
    ensures x == U32Max ==> r == 0
  {
    (x + 1) % U32Limit
  }

  /** `UridMapFeatureNativeImpl::default`: an empty table whose counter starts at 1. */
  function NewNativeMap(): (m: NativeMap)
    ensures Valid(m)
    ensures |m.ids| == 0
  {
    NativeMap(map[], 1)
  }

  /** The second half of `map`, run under the write lock: the URI is looked up again
      (another writer may have registered it since the read lock was released) and only
      then is the counter bumped and the URI inserted with the counter's old value. */
  function MapLocked(m: NativeMap, uri: Uri): (r: (NativeMap, u32))
    ensures uri in m.ids ==> r == (m, m.ids[uri])
    ensures uri !in m.ids ==> r.1 == m.nextId && r.0.nextId == WrappingInc(m.nextId)
    ensures r.0.ids.Keys == m.ids.Keys + {uri}
    ensures uri in r.0.ids && r.0.ids[uri] == r.1
    ensures forall u :: u in m.ids ==> r.0.ids[u] == m.ids[u]
  {
    if uri in m.ids then (m, m.ids[uri])
    else (NativeMap(m.ids[uri := m.nextId], WrappingInc(m.nextId)), m.nextId)
  }

  /** `UridMapFeatureNativeImpl::map`: answer from the table under the read lock when
      the URI is known, otherwise register it under the write lock. Returns the new
      table state and the id. */
  function MapUri(m: NativeMap, uri: Uri): (r: (NativeMap, u32))
    ensures uri in m.ids ==> r == (m, m.ids[uri])
    ensures uri !in m.ids ==> r.1 == m.nextId && r.0.nextId == WrappingInc(m.nextId)
    ensures r.0.ids.Keys == m.ids.Keys + {uri}
    ensures uri in r.0.ids && r.0.ids[uri] == r.1
    ensures forall u :: u in m.ids ==> r.0.ids[u] == m.ids[u]
  {
    if uri in m.ids then (m, m.ids[uri])
    else MapLocked(m, uri)
  }

  /** Sequentially nothing can slip in between the two locks, so the re-check under the
      write lock never finds the URI that the read lock missed: a miss always inserts. */
  lemma RecheckFindsNothing(m: NativeMap, uri: Uri)
    requires uri !in m.ids
    ensures MapUri(m, uri) == (NativeMap(m.ids[uri := m.nextId], WrappingInc(m.nextId)), m.nextId)
  {
  }

  /** Registering a fresh URI keeps the table valid as long as the counter has room;
      re-mapping a known URI keeps it valid unconditionally. */
  lemma MapPreservesValid(m: NativeMap, uri: Uri)
    requires Valid(m)
    requires uri in m.ids || m.nextId < U32Max
    ensures Valid(MapUri(m, uri).0)
    ensures 1 <= MapUri(m, uri).1
  {
    if uri !in m.ids {
      var m' := MapUri(m, uri).0;
      assert m'.ids == m.ids[uri := m.nextId];
      assert |m'.ids| == |m.ids| + 1;
      forall u, v | u in m'.ids && v in m'.ids && u != v
        ensures m'.ids[u] != m'.ids[v]
      {
        if u == uri {
          assert m.ids[v] < m.nextId;
        } else if v == uri {
          assert m.ids[u] < m.nextId;
        }
      }
    }
  }

  /** Mapping the same URI twice gives the same id and leaves the table unchanged the
      second time. */
  lemma MapTwiceSameId(m: NativeMap, uri: Uri)
    ensures var (m1, a) := MapUri(m, uri);
            var (m2, b) := MapUri(m1, uri);
            a == b && m2 == m1
  {
  }

  /** The ids issued for a run of `map` calls, threading the table through. */
  function MapAll(m: NativeMap, uris: seq<Uri>): (r: (NativeMap, seq<u32>))
    ensures |r.1| == |uris|
    decreases |uris|
  {
    if |uris| == 0 then (m, [])
    else
      var (m1, id) := MapUri(m, uris[0]);
      var (m2, rest) := MapAll(m1, uris[1..]);
      (m2, [id] + rest)
  }

  /** Over any run of calls, the table only grows, every mapped URI ends up in it under
      the id it was given, and (while the counter plus the number of calls in the run
      stays within 2^32 - 1) the table stays valid, so ids never collide and 0 is never issued. */
  lemma {:induction false} MapAllFacts(m: NativeMap, uris: seq<Uri>)
    requires Valid(m)
    requires m.nextId + |uris| <= U32Max
    ensures var (m', ids) := MapAll(m, uris);
            && Valid(m')
            && m.ids.Keys <= m'.ids.Keys
            && (forall u :: u in m.ids ==> m'.ids[u] == m.ids[u])
            && (forall i :: 0 <= i < |uris| ==> uris[i] in m'.ids && m'.ids[uris[i]] == ids[i])
    decreases |uris|
  {
    if |uris| > 0 {
      var (m1, id) := MapUri(m, uris[0]);
      MapPreservesValid(m, uris[0]);
      assert m1.nextId <= m.nextId + 1;
      MapAllFacts(m1, uris[1..]);
      var (m2, rest) := MapAll(m1, uris[1..]);
      assert MapAll(m, uris) == (m2, [id] + rest);
      forall i | 0 <= i < |uris|
        ensures uris[i] in m2.ids && m2.ids[uris[i]] == ([id] + rest)[i]
      {
        if i > 0 {
          assert uris[i] == uris[1..][i - 1];
        }
      }
    }
  }

  /** The uniqueness promise of the map: as long as the counter plus the number of
      calls in the run stays within 2^32 - 1, two calls return the same id exactly when they map the same URI,
      and every id is at least 1. */
  lemma {:induction false} MapAllIdsUnique(m: NativeMap, uris: seq<Uri>)
    requires Valid(m)
    requires m.nextId + |uris| <= U32Max
    ensures var ids := MapAll(m, uris).1;
            && (forall i, j :: 0 <= i < |uris| && 0 <= j < |uris| ==> (ids[i] == ids[j] <==> uris[i] == uris[j]))
            && (forall i :: 0 <= i < |uris| ==> ids[i] != 0)
  {
    MapAllFacts(m, uris);
  }

  /** A fresh table issues 1 first, then 2 for a different URI, and 1 again for the
      first URI: the behaviour the crate's own tests check. */
  lemma FreshMapIssuesFromOne(a: Uri, b: Uri)
    requires a != b
    ensures var (m1, x) := MapUri(NewNativeMap(), a);
            var (m2, y) := MapUri(m1, b);
            var (m3, z) := MapUri(m2, a);
            x == 1 && y == 2 && z == 1
  {
  }

  /** The uniqueness bound is needed: once 2^32 - 1 ids have been issued the counter
      wraps, the next fresh URI is given 0 and the one after that reuses 1. */
  lemma CounterWrapReissuesIds(m: NativeMap, a: Uri, b: Uri)
    requires Valid(m) && m.nextId == U32Max
    requires a !in m.ids && b !in m.ids && a != b
    ensures var (m1, x) := MapUri(m, a);
            var (m2, y) := MapUri(m1, b);
            x == U32Max && y == 0 && m2.nextId == 1
  {
  }

  // ---------------------------------------------------------------------------
  // The feature wrapper

  /** The boxed native tables alive in the process, by the address of their box. Every
      feature and every `LV2_URID_Map` handle that points at the same box shares the
      one table and its counter. */
  type Store = map<nat, NativeMap>

  /** The `handle` of an `LV2_URID_Map`: null, or the address of a boxed native table. */
  datatype Handle = NullHandle | TableAt(addr: nat)

  /** `LV2_URID_Map { handle, map }`. The only `map` function pointer this file
      installs is the trampoline below, so the record holds just the handle. */
  datatype LV2UridMap = LV2UridMap(handle: Handle)

  /** The `data` pointer of an `LV2_Feature`: null, or the record it points to. Data of
      other features is never dereferenced, so only its nullness matters. */
  datatype FeatureData = NullData | Data(urid: LV2UridMap)

  datatype LV2Feature = LV2Feature(uri: Uri, data: FeatureData)

  /** `UridMapFeature`: backed by the native table boxed at `table`, which it owns, or
      by a borrowed `LV2_URID_Map` reached through opaque pointers. */
  datatype UridMapFeature = Native(table: nat) | Abstract(raw: LV2UridMap)

  datatype UridFeatureError = FeatureDataIsNull | FeatureIsNotUridMap

  /** The table a feature's `map` ends up in: its own box for a native feature, the
      handle's box for an abstract one, none for a null handle. */
  function Target(f: UridMapFeature): Option<nat> {
    match f
    case Native(a) => Some(a)
    case Abstract(raw) =>
      match raw.handle
      case NullHandle => None
      case TableAt(a) => Some(a)
  }

  /** The feature's table, if it has one, is alive: the handle does not dangle. */
  predicate Live(store: Store, f: UridMapFeature) {
    Target(f).Some? ==> Target(f).value in store
  }

  /** `urid_map_feature_native_impl_map`: the C entry point. A null handle is reported
      with id 0; otherwise the call is `map` on the table the handle points at, and
      every other table is left alone. */
  function Trampoline(store: Store, h: Handle, uri: Uri): (r: (Store, u32))
    requires h.TableAt? ==> h.addr in store
    ensures h.NullHandle? ==> r == (store, 0)
    ensures h.TableAt? ==> r.1 == MapUri(store[h.addr], uri).1
    ensures h.TableAt? ==> r.0 == store[h.addr := MapUri(store[h.addr], uri).0]
  {
    match h
    case NullHandle => (store, 0)
    case TableAt(a) =>
      var (m', id) := MapUri(store[a], uri);
      (store[a := m'], id)
  }

  /** `UridMapFeature::default`: a native feature owning a new, empty table boxed at
      `addr`, an address the allocator hands out (so not in use). */
  function Default(store: Store, addr: nat): (r: (Store, UridMapFeature))
    requires addr !in store
    ensures IsNative(r.1) && Target(r.1) == Some(addr) && Live(r.0, r.1)
    ensures r.0.Keys == store.Keys + {addr}
    ensures Valid(r.0[addr]) && |r.0[addr].ids| == 0 && r.0[addr].nextId == 1
    ensures forall a :: a in store ==> r.0[a] == store[a]
  {
    (store[addr := NewNativeMap()], Native(addr))
  }

  /** `UridMapFeature::is_native`. */
  function IsNative(f: UridMapFeature): (r: bool)
    ensures r <==> f.Native?
    ensures r ==> Target(f).Some?
  {
    f.Native?
  }

  /** `as_lv2_feature_mut`: the `LV2_Feature` the feature exposes. For a native feature
      the data points at a record whose handle is the feature's own boxed table, so
      anything mapped through the exposed feature lands in that table. */
  function AsLv2Feature(f: UridMapFeature): (feature: LV2Feature)
    ensures feature.uri == UridMapUri && feature.data.Data?
    ensures f.Native? ==> feature.data.urid.handle == TableAt(f.table)
    ensures f.Abstract? ==> feature.data.urid == f.raw
  {
    match f
    case Native(a) => LV2Feature(UridMapUri, Data(LV2UridMap(TableAt(a))))
    case Abstract(raw) => LV2Feature(UridMapUri, Data(raw))
  }

  /** `From<&LV2_URID_Map>`: wrap a borrowed record; the result is not native. */
  function FromRaw(raw: LV2UridMap): (f: UridMapFeature)
    ensures !IsNative(f)
    ensures AsLv2Feature(f) == LV2Feature(UridMapUri, Data(raw))
  {
    Abstract(raw)
  }

  /** `TryFrom<&mut LV2_Feature>`: the URI decides first, then the data pointer. */
  function TryFrom(feature: LV2Feature): (r: Result<UridMapFeature, UridFeatureError>)
    ensures feature.uri != UridMapUri <==> r == Err(FeatureIsNotUridMap)
    ensures r == Err(FeatureDataIsNull) <==> feature.uri == UridMapUri && feature.data.NullData?
    ensures r.Ok? <==> feature.uri == UridMapUri && feature.data.Data?
    ensures r.Ok? ==> r.value == FromRaw(feature.data.urid)
  {
    if feature.uri == UridMapUri then
      match feature.data
      case Data(raw) => Ok(FromRaw(raw))
      case NullData => Err(FeatureDataIsNull)
    else Err(FeatureIsNotUridMap)
  }

  /** `UridMapFeature::map`: dispatch to the native table or through the trampoline.
      Either way the call is `map` on the feature's target table, which every other
      feature pointing at that table then sees; a null handle gives 0 and changes
      nothing. */
  function FeatureMap(store: Store, f: UridMapFeature, uri: Uri): (r: (Store, u32))
    requires Live(store, f)
    ensures Target(f).None? ==> r == (store, 0)
    ensures Target(f).Some? ==> r.1 == MapUri(store[Target(f).value], uri).1
    ensures Target(f).Some? ==> r.0 == store[Target(f).value := MapUri(store[Target(f).value], uri).0]
    ensures r.0.Keys == store.Keys
  {
    match f
    case Native(a) =>
      var (m', id) := MapUri(store[a], uri);
      (store[a := m'], id)
    case Abstract(raw) => Trampoline(store, raw.handle, uri)
  }

  /** A feature recovered from a native feature's `LV2_Feature` is not native, reaches
      the very table the native feature owns, and so maps every URI to the same id and
      leaves the same tables behind. */
  lemma AbstractAgreesWithNative(store: Store, f: UridMapFeature, uri: Uri)
    requires IsNative(f) && Live(store, f)
    ensures TryFrom(AsLv2Feature(f)).Ok?
    ensures var g := TryFrom(AsLv2Feature(f)).value;
            && !IsNative(g)
            && Target(g) == Target(f)
            && Live(store, g)
            && FeatureMap(store, g, uri) == FeatureMap(store, f, uri)
  {
  }

  /** A run of `map` calls, the i-th through feature `fs[i]`, threading the store. */
  function MapVia(store: Store, fs: seq<UridMapFeature>, uris: seq<Uri>): (r: (Store, seq<u32>))
    requires |fs| == |uris|
    requires forall i :: 0 <= i < |fs| ==> Live(store, fs[i])
    ensures |r.1| == |uris| && r.0.Keys == store.Keys
    decreases |uris|
  {
    if |uris| == 0 then (store, [])
    else
      var (s1, id) := FeatureMap(store, fs[0], uris[0]);
      assert forall i :: 0 <= i < |fs[1..]| ==> Live(s1, fs[1..][i]) by {
        forall i | 0 <= i < |fs[1..]| ensures Live(s1, fs[1..][i]) {
          assert fs[1..][i] == fs[i + 1] && Live(store, fs[i + 1]);
          if Target(fs[i + 1]).Some? {
            assert Target(fs[i + 1]).value in store.Keys;
          }
        }
      }
      var (s2, rest) := MapVia(s1, fs[1..], uris[1..]);
      (s2, [id] + rest)
  }

  /** Calls interleaved between features that share one table behave as a single run
      on that table: the ids are the ones `MapAll` issues and only that table changes. */
  lemma {:induction false} SharedTableMapsAsOne(store: Store, a: nat, fs: seq<UridMapFeature>, uris: seq<Uri>)
    requires a in store
    requires |fs| == |uris|
    requires forall i :: 0 <= i < |fs| ==> Target(fs[i]) == Some(a)
    ensures MapVia(store, fs, uris).1 == MapAll(store[a], uris).1
    ensures MapVia(store, fs, uris).0 == store[a := MapAll(store[a], uris).0]
    decreases |uris|
  {
    if |uris| > 0 {
      var (s1, id) := FeatureMap(store, fs[0], uris[0]);
      var (m1, id') := MapUri(store[a], uris[0]);
      assert id == id' && s1 == store[a := m1];
      assert forall i :: 0 <= i < |fs[1..]| ==> Target(fs[1..][i]) == Some(a) by {
        forall i | 0 <= i < |fs[1..]| ensures Target(fs[1..][i]) == Some(a) {
          assert fs[1..][i] == fs[i + 1];
        }
      }
      SharedTableMapsAsOne(s1, a, fs[1..], uris[1..]);
      assert s1[a] == m1;
      assert s1[a := MapAll(m1, uris[1..]).0] == store[a := MapAll(m1, uris[1..]).0];
    }
  }

  /** The uniqueness promise holds across handles: however calls are interleaved
      between a native feature and the features recovered from it, two calls return
      the same id exactly when they map the same URI, and no id is 0 (as long as the counter
      plus the number of calls stays within 2^32 - 1). */
  lemma {:induction false} InterleavedIdsUnique(store: Store, a: nat, fs: seq<UridMapFeature>, uris: seq<Uri>)
    requires a in store && Valid(store[a])
    requires store[a].nextId + |uris| <= U32Max
    requires |fs| == |uris|
    requires forall i :: 0 <= i < |fs| ==> Target(fs[i]) == Some(a)
    ensures var ids := MapVia(store, fs, uris).1;
            && (forall i, j :: 0 <= i < |uris| && 0 <= j < |uris| ==> (ids[i] == ids[j] <==> uris[i] == uris[j]))
            && (forall i :: 0 <= i < |uris| ==> ids[i] != 0)
  {
    SharedTableMapsAsOne(store, a, fs, uris);
    MapAllIdsUnique(store[a], uris);
  }

  /** The two handles share one counter: on a new default feature, a URI mapped through
      the recovered feature gets 1, and a different URI mapped afterwards through the
      native feature gets 2. */
  lemma RecoveredFeatureSharesCounter(store: Store, addr: nat, a: Uri, b: Uri)
    requires addr !in store && a != b
    ensures var (s1, f) := Default(store, addr);
            var g := TryFrom(AsLv2Feature(f)).value;
            var (s2, x) := FeatureMap(s1, g, a);
            var (s3, y) := FeatureMap(s2, f, b);
            x == 1 && y == 2
  {
    var (s1, f) := Default(store, addr);
    var g := TryFrom(AsLv2Feature(f)).value;
    AbstractAgreesWithNative(s1, f, a);
    FreshMapIssuesFromOne(a, b);
  }

  /** For either backing, mapping the same URI twice returns the same id. */
  lemma FeatureMapStable(store: Store, f: UridMapFeature, uri: Uri)
    requires Live(store, f)
    ensures var (s1, a) := FeatureMap(store, f, uri);
            FeatureMap(s1, f, uri).1 == a
  {
    if Target(f).Some? {
      MapTwiceSameId(store[Target(f).value], uri);
    }
  }
}
