/**
 * The validator's in-memory store (`src/validator/store.rs`): per namespace,
 * a bounded first-in-first-out map from record digest to record. The bounded
 * map stands for `hashmore::FIFOMap`, taken as an insertion-ordered map that
 * drops its oldest entry when an insertion would exceed its capacity.
 */
module Store {
  import opened Wrappers
  import opened Common
  import opened Sorting

  datatype Entry = Entry(key: B256, record: Record)

  /** A bounded, insertion-ordered map; `entries` runs from oldest to newest. */
  datatype FifoMap = FifoMap(cap: nat, entries: seq<Entry>)

  /** No key twice, and no more entries than the capacity. */
  predicate FifoValid(f: FifoMap) {
    && |f.entries| <= f.cap
    && forall i, j | 0 <= i < j < |f.entries| :: f.entries[i].key != f.entries[j].key
  }

  /** The record stored under `key`: the first entry carrying it (`iter().find`). */
  function FifoGet(f: FifoMap, key: B256): (r: Option<Record>)
    ensures r.None? <==> forall i | 0 <= i < |f.entries| :: f.entries[i].key != key
    ensures r.Some? ==> exists i | 0 <= i < |f.entries| :: f.entries[i] == Entry(key, r.value)
  {
    FirstWithKey(f.entries, key)
  }

  function FirstWithKey(es: seq<Entry>, key: B256): (r: Option<Record>)
    ensures r.None? <==> forall i | 0 <= i < |es| :: es[i].key != key
    ensures r.Some? ==> exists i | 0 <= i < |es| :: es[i] == Entry(key, r.value)
  {
    if |es| == 0 then None
    else if es[0].key == key then Some(es[0].record)
    else
      var r := FirstWithKey(es[1..], key);
      assert forall i | 0 <= i < |es[1..]| :: es[1..][i] == es[i + 1];
      r
  }

  /** The position of `key` among the entries, if present. */
  function IndexOfKey(es: seq<Entry>, key: B256): (r: Option<nat>)
    ensures r.None? <==> forall i | 0 <= i < |es| :: es[i].key != key
    ensures r.Some? ==> r.value < |es| && es[r.value].key == key
    ensures r.Some? ==> forall i | 0 <= i < r.value :: es[i].key != key
  {
    if |es| == 0 then None
    else if es[0].key == key then Some(0)
    else
      match IndexOfKey(es[1..], key)
      case None => None
      case Some(k) => Some(k + 1)
  }

  /**
   * `FIFOMap::insert`: an existing key has its record replaced where it
   * stands; a new key is appended as the newest entry, and the oldest
   * entries are dropped until at most `cap` remain.
   */
  function FifoInsert(f: FifoMap, key: B256, record: Record): (r: FifoMap)
    ensures r.cap == f.cap
    ensures IndexOfKey(f.entries, key).Some? ==> |r.entries| == |f.entries|
    ensures IndexOfKey(f.entries, key).None? ==>
      |r.entries| == if |f.entries| < f.cap then |f.entries| + 1 else f.cap
    ensures IndexOfKey(f.entries, key).None? && f.cap > 0 ==> r.entries[|r.entries| - 1] == Entry(key, record)
  {
    match IndexOfKey(f.entries, key)
    case Some(k) => f.(entries := f.entries[k := Entry(key, record)])
    case None =>
      var grown := f.entries + [Entry(key, record)];
      f.(entries := if |grown| <= f.cap then grown else grown[|grown| - f.cap..])
  }

  /** Insertion keeps the map's keys distinct and its size within the capacity. */
  lemma FifoInsertValid(f: FifoMap, key: B256, record: Record)
    requires FifoValid(f)
    ensures FifoValid(FifoInsert(f, key, record))
  {
    var r := FifoInsert(f, key, record);
    if IndexOfKey(f.entries, key).None? {
      var grown := f.entries + [Entry(key, record)];
      if |grown| > f.cap {
        forall i, j | 0 <= i < j < |r.entries|
          ensures r.entries[i].key != r.entries[j].key
        {
          var d := |grown| - f.cap;
          assert r.entries[i] == grown[i + d] && r.entries[j] == grown[j + d];
        }
      }
    }
  }

  /** After an insertion into a map with room for anything, the key reads back the new record. */
  lemma FifoInsertGet(f: FifoMap, key: B256, record: Record)
    requires FifoValid(f) && f.cap > 0
    ensures FifoGet(FifoInsert(f, key, record), key) == Some(record)
  {
    FifoInsertValid(f, key, record);
    var r := FifoInsert(f, key, record);
    var last := |r.entries| - 1;
    match IndexOfKey(f.entries, key)
    case Some(k) =>
      assert r.entries[k] == Entry(key, record);
      FirstKeyUnique(r.entries, key, k);
    case None =>
      assert r.entries[last] == Entry(key, record);
      FirstKeyUnique(r.entries, key, last);
  }

  lemma FirstKeyUnique(es: seq<Entry>, key: B256, k: nat)
    requires k < |es| && es[k].key == key
    requires forall i, j | 0 <= i < j < |es| :: es[i].key != es[j].key
    ensures FirstWithKey(es, key) == Some(es[k].record)
  {
    var r := FirstWithKey(es, key);
    var i :| 0 <= i < |es| && es[i] == Entry(key, r.value);
  }

  /**
   * A new key inserted into a full map evicts exactly the oldest entry;
   * every other entry keeps its place in the order.
   */
  lemma FifoEvictsOldest(f: FifoMap, key: B256, record: Record)
    requires FifoValid(f) && |f.entries| == f.cap > 0
    requires forall i | 0 <= i < |f.entries| :: f.entries[i].key != key
    ensures FifoInsert(f, key, record).entries == f.entries[1..] + [Entry(key, record)]
  {
  }

  /** Replacing the record of a present key changes nothing else. */
  lemma FifoReplaceInPlace(f: FifoMap, key: B256, record: Record, k: nat)
    requires FifoValid(f) && k < |f.entries| && f.entries[k].key == key
    ensures |FifoInsert(f, key, record).entries| == |f.entries|
    ensures forall i | 0 <= i < |f.entries| && i != k :: FifoInsert(f, key, record).entries[i] == f.entries[i]
  {
    var m := IndexOfKey(f.entries, key);
    assert m.Some?;
    assert m.value == k;
  }

  /** Other keys keep their records unless theirs was the evicted oldest entry. */
  lemma FifoInsertOthers(f: FifoMap, key: B256, record: Record, other: B256)
    requires FifoValid(f) && other != key
    requires |f.entries| == 0 || f.entries[0].key != other || |f.entries| < f.cap
    ensures FifoGet(FifoInsert(f, key, record), other) == FifoGet(f, other)
  {
    var r := FifoInsert(f, key, record);
    FifoInsertValid(f, key, record);
    match FifoGet(f, other)
    case None =>
      forall i | 0 <= i < |r.entries|
        ensures r.entries[i].key != other
      {
        EntryOrigin(f, key, record, i);
      }
    case Some(v) =>
      var k :| 0 <= k < |f.entries| && f.entries[k] == Entry(other, v);
      var k' := KeptPosition(f, key, record, k);
      FirstKeyUnique(r.entries, other, k');
  }

  /** Every entry after an insertion is the new one or an old one. */
  lemma EntryOrigin(f: FifoMap, key: B256, record: Record, i: nat)
    requires i < |FifoInsert(f, key, record).entries|
    ensures var e := FifoInsert(f, key, record).entries[i];
      e.key == key || exists j | 0 <= j < |f.entries| :: f.entries[j] == e
  {
    var r := FifoInsert(f, key, record);
    match IndexOfKey(f.entries, key)
    case Some(k) =>
      if i != k {
        assert r.entries[i] == f.entries[i];
      }
    case None =>
      var grown := f.entries + [Entry(key, record)];
      var d := |grown| - |r.entries|;
      assert r.entries[i] == grown[i + d];
      if i + d < |f.entries| {
        assert grown[i + d] == f.entries[i + d];
      }
  }

  /** Where an old entry with another key ends up, if it is not evicted. */
  lemma KeptPosition(f: FifoMap, key: B256, record: Record, k: nat) returns (k': nat)
    requires FifoValid(f) && k < |f.entries| && f.entries[k].key != key
    requires k > 0 || |f.entries| < f.cap
    ensures k' < |FifoInsert(f, key, record).entries|
    ensures FifoInsert(f, key, record).entries[k'] == f.entries[k]
  {
    var r := FifoInsert(f, key, record);
    match IndexOfKey(f.entries, key)
    case Some(m) =>
      k' := k;
    case None =>
      var grown := f.entries + [Entry(key, record)];
      var d := |grown| - |r.entries|;
      assert d <= 1;
      k' := k - d;
      assert r.entries[k'] == grown[k];
  }

  /** The records in insertion order (`FIFOMap::values`). */
  function Values(es: seq<Entry>): (r: seq<Record>)
    ensures |r| == |es|
    ensures forall i | 0 <= i < |es| :: r[i] == es[i].record
  {
    if |es| == 0 then [] else Values(es[..|es| - 1]) + [es[|es| - 1].record]
  }

  /** `start <= timestamp <= end`, inclusive at both ends. */
  predicate InWindow(r: Record, start: Timestamp, end: Timestamp) {
    start <= r.timestamp <= end
  }

  /**
   * The records in the window, in their stored order: each record in the
   * window is kept as often as it occurs, every other record is dropped.
   */
  function FilterWindow(rs: seq<Record>, start: Timestamp, end: Timestamp): (out: seq<Record>)
    ensures forall r :: multiset(out)[r] == if InWindow(r, start, end) then multiset(rs)[r] else 0
    ensures SubsequenceOf(out, rs)
    ensures forall r | r in out :: r in rs && InWindow(r, start, end)
    ensures forall r | r in rs && InWindow(r, start, end) :: r in out
  {
    if |rs| == 0 then []
    else
      var init := FilterWindow(rs[..|rs| - 1], start, end);
      var last := rs[|rs| - 1];
      assert rs == rs[..|rs| - 1] + [last];
      assert multiset(rs) == multiset(rs[..|rs| - 1]) + multiset{last};
      if InWindow(last, start, end) then
        assert (init + [last])[..|init|] == init;
        init + [last]
      else
        assert |init| > 0 ==> init[|init| - 1] in init;
        init
  }

  /** `InMemoryStore`: the capacity every namespace's map is created with, and the maps. */
  datatype InMemoryStore = InMemoryStore(cap: nat, recordMaps: map<Namespace, FifoMap>)

  /** Every namespace's map is valid and has the store's capacity. */
  predicate StoreValid(s: InMemoryStore) {
    forall ns | ns in s.recordMaps :: s.recordMaps[ns].cap == s.cap && FifoValid(s.recordMaps[ns])
  }

  /** `InMemoryStore::with_capacity`. */
  function WithCapacity(cap: nat): (s: InMemoryStore)
    ensures StoreValid(s)
    ensures forall ns, k :: ReadMessage(s, ns, k).None?
    ensures forall ns, start, end :: ReadRange(s, ns, start, end).records == []
  {
    InMemoryStore(cap, map[])
  }

  /** `DataStore::read_range`: the stored records of the namespace within `[start, end]`. */
  function ReadRange(s: InMemoryStore, ns: Namespace, start: Timestamp, end: Timestamp): (log: Log)
    ensures ns !in s.recordMaps ==> log.records == []
    ensures forall r | r in log.records :: InWindow(r, start, end)
    ensures ns in s.recordMaps ==>
      forall r :: r in log.records <==> r in Values(s.recordMaps[ns].entries) && InWindow(r, start, end)
    ensures ns in s.recordMaps ==>
      var stored := Values(s.recordMaps[ns].entries);
      && (forall r :: multiset(log.records)[r] == if InWindow(r, start, end) then multiset(stored)[r] else 0)
      && SubsequenceOf(log.records, stored)
  {
    if ns !in s.recordMaps then Log([])
    else Log(FilterWindow(Values(s.recordMaps[ns].entries), start, end))
  }

  /** `DataStore::read_message`: the record stored under `msgId` in the namespace, if any. */
  function ReadMessage(s: InMemoryStore, ns: Namespace, msgId: B256): (r: Option<Record>)
    ensures ns !in s.recordMaps ==> r.None?
    ensures ns in s.recordMaps ==> r == FifoGet(s.recordMaps[ns], msgId)
  {
    if ns !in s.recordMaps then None else FifoGet(s.recordMaps[ns], msgId)
  }

  /**
   * `DataStore::write_one`: inserts the record under its digest into the
   * namespace's map, creating the map with the store's capacity on first use.
   */
  function WriteOne(c: Crypto, s: InMemoryStore, ns: Namespace, record: Record): (s': InMemoryStore)
    ensures s'.cap == s.cap
    ensures s'.recordMaps.Keys == s.recordMaps.Keys + {ns}
    ensures forall other | other in s.recordMaps && other != ns :: s'.recordMaps[other] == s.recordMaps[other]
    ensures s'.recordMaps[ns] ==
      FifoInsert(if ns in s.recordMaps then s.recordMaps[ns] else FifoMap(s.cap, []), RecordDigest(c, record, ns), record)
  {
    var records := if ns in s.recordMaps then s.recordMaps[ns] else FifoMap(s.cap, []);
    s.(recordMaps := s.recordMaps[ns := FifoInsert(records, RecordDigest(c, record, ns), record)])
  }

  /** Writing keeps every namespace's map valid: distinct digests, at most `cap` records. */
  lemma WriteOneValid(c: Crypto, s: InMemoryStore, ns: Namespace, record: Record)
    requires StoreValid(s)
    ensures StoreValid(WriteOne(c, s, ns, record))
    ensures forall n | n in WriteOne(c, s, ns, record).recordMaps :: |WriteOne(c, s, ns, record).recordMaps[n].entries| <= s.cap
  {
    var records := if ns in s.recordMaps then s.recordMaps[ns] else FifoMap(s.cap, []);
    FifoInsertValid(records, RecordDigest(c, record, ns), record);
  }

  /** A written record can be read back under its digest while the capacity is not zero. */
  lemma WriteThenReadMessage(c: Crypto, s: InMemoryStore, ns: Namespace, record: Record)
    requires StoreValid(s) && s.cap > 0
    ensures ReadMessage(WriteOne(c, s, ns, record), ns, RecordDigest(c, record, ns)) == Some(record)
  {
    var records := if ns in s.recordMaps then s.recordMaps[ns] else FifoMap(s.cap, []);
    FifoInsertGet(records, RecordDigest(c, record, ns), record);
  }

  /** A written record shows up in every range read whose window covers its timestamp. */
  lemma WriteThenReadRange(c: Crypto, s: InMemoryStore, ns: Namespace, record: Record, start: Timestamp, end: Timestamp)
    requires StoreValid(s) && s.cap > 0 && InWindow(record, start, end)
    ensures record in ReadRange(WriteOne(c, s, ns, record), ns, start, end).records
  {
    var records := if ns in s.recordMaps then s.recordMaps[ns] else FifoMap(s.cap, []);
    var key := RecordDigest(c, record, ns);
    FifoInsertGet(records, key, record);
    var f := WriteOne(c, s, ns, record).recordMaps[ns];
    var i :| 0 <= i < |f.entries| && f.entries[i] == Entry(key, record);
    assert Values(f.entries)[i] == record;
  }

  /** A write to one namespace leaves what every other namespace reads unchanged. */
  lemma WriteOneIsolated(c: Crypto, s: InMemoryStore, ns: Namespace, other: Namespace, record: Record, msgId: B256, start: Timestamp, end: Timestamp)
    requires other != ns
    ensures ReadMessage(WriteOne(c, s, ns, record), other, msgId) == ReadMessage(s, other, msgId)
    ensures ReadRange(WriteOne(c, s, ns, record), other, start, end) == ReadRange(s, other, start, end)
  {
  }
}
