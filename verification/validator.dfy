/**
 * A validator (`src/validator/mod.rs`): it signs and stores records, answers
 * range and single-message reads from its store, and tracks the namespaces
 * clients subscribed to. The clock reading and, for a subscription, the
 * publisher port are parameters.
 */
module Validator {
  import opened Wrappers
  import opened Common
  import opened Store
  import opened Client

  datatype Validator = Validator(store: InMemoryStore, secretKey: SecretKey, activeSubscriptions: set<Namespace>)

  /** The per-namespace capacity of `Validator::new_in_memory`. */
  const IN_MEMORY_CAPACITY: nat := 4096

  /** `Validator::new_in_memory`: an empty store of capacity 4096 and no subscriptions. */
  function NewInMemory(secretKey: SecretKey): (v: Validator)
    ensures StoreValid(v.store) && v.store.cap == IN_MEMORY_CAPACITY
    ensures v.store.recordMaps == map[] && v.activeSubscriptions == {}
    ensures v.secretKey == secretKey
  {
    Validator(WithCapacity(IN_MEMORY_CAPACITY), secretKey, {})
  }

  /** The validator's BLS public key. */
  function PublicKeyOf(c: Crypto, v: Validator): PublicKey {
    c.publicKeyOf(v.secretKey)
  }

  /**
   * `ValidatorSpec::write`: stamps the message with the clock reading, signs
   * its digest and stores the record; it never refuses a write.
   */
  function Write(c: Crypto, v: Validator, ns: Namespace, msg: Message, now: Timestamp): (r: (Validator, Record))
    ensures r.1.message == msg && r.1.timestamp == now
    ensures r.1.signature == c.sign(v.secretKey, RecordDigest(c, r.1, ns))
    ensures r.0.store == WriteOne(c, v.store, ns, r.1)
    ensures r.0.secretKey == v.secretKey && r.0.activeSubscriptions == v.activeSubscriptions
  {
    var signature := c.sign(v.secretKey, MessageDigest(c, msg, now, ns));
    var record := Record(now, msg, signature);
    (v.(store := WriteOne(c, v.store, ns, record)), record)
  }

  /** `ValidatorSpec::read_range`: the store's answer, unchanged. */
  function ReadRange(v: Validator, ns: Namespace, start: Timestamp, end: Timestamp): (log: Log)
    ensures log == Store.ReadRange(v.store, ns, start, end)
  {
    Store.ReadRange(v.store, ns, start, end)
  }

  /**
   * `ValidatorSpec::read_message`: the stored record if there is one,
   * otherwise a signed statement that the message is unavailable, stamped
   * with the clock reading.
   */
  function ReadMessage(c: Crypto, v: Validator, ns: Namespace, msgId: B256, now: Timestamp): (r: ReadMessageResponse)
    ensures r.Available? <==> Store.ReadMessage(v.store, ns, msgId).Some?
    ensures r.Available? ==> Store.ReadMessage(v.store, ns, msgId) == Some(r.record)
    ensures r.Unavailable? ==> r.unavailable.msgId == msgId && r.unavailable.timestamp == now
  {
    match Store.ReadMessage(v.store, ns, msgId)
    case Some(record) => Available(record)
    case None =>
      Unavailable(UnavailableMessage(msgId, now, c.sign(v.secretKey, c.unavailableDigest(msgId, now))))
  }

  /** `ValidatorSpec::subscribe`. */
  function Subscribe(v: Validator, ns: Namespace): (v': Validator)
    ensures v'.activeSubscriptions == v.activeSubscriptions + {ns}
    ensures v'.store == v.store && v'.secretKey == v.secretKey
  {
    v.(activeSubscriptions := v.activeSubscriptions + {ns})
  }

  /** Subscribing twice is subscribing once. */
  lemma SubscribeIdempotent(v: Validator, ns: Namespace)
    ensures Subscribe(Subscribe(v, ns), ns) == Subscribe(v, ns)
    ensures ns in v.activeSubscriptions ==> Subscribe(v, ns) == v
  {
  }

  // ---------------------------------------------------------------------------
  // Request dispatch
  // ---------------------------------------------------------------------------

  datatype Request =
    | WriteRequest(namespace: Namespace, message: Message)
    | ReadRangeRequest(namespace: Namespace, start: Timestamp, end: Timestamp)
    | ReadMessageRequest(namespace: Namespace, msgId: B256)
    | SubscribeRequest(namespace: Namespace)

  datatype Response =
    | Written(record: Record)
    | RangeRead(log: Log)
    | MessageRead(response: ReadMessageResponse)
    | Subscribed(port: nat)

  /** What handling one request produces: the new state, the reply, and what is queued for publishing. */
  datatype Handled = Handled(validator: Validator, response: Response, publish: Option<(Namespace, Record)>)

  /**
   * One request of the validator's poll loop: dispatches it to the operation
   * it names and, after a write, queues the record for publishing exactly
   * when its namespace has an active subscription.
   */
  function Handle(c: Crypto, v: Validator, req: Request, now: Timestamp, publisherPort: nat): (h: Handled)
    ensures h.publish.Some? <==> req.WriteRequest? && req.namespace in v.activeSubscriptions
    ensures h.publish.Some? ==> h.response.Written? && h.publish.value == (req.namespace, h.response.record)
    ensures h.validator.secretKey == v.secretKey
    ensures !req.WriteRequest? ==> h.validator.store == v.store
    ensures !req.SubscribeRequest? ==> h.validator.activeSubscriptions == v.activeSubscriptions
    ensures req.WriteRequest? ==>
      var w := Write(c, v, req.namespace, req.message, now);
      h.validator == w.0 && h.response == Written(w.1)
    ensures req.ReadRangeRequest? ==>
      h.validator == v && h.response == RangeRead(ReadRange(v, req.namespace, req.start, req.end))
    ensures req.ReadMessageRequest? ==>
      h.validator == v && h.response == MessageRead(ReadMessage(c, v, req.namespace, req.msgId, now))
    ensures req.SubscribeRequest? ==>
      h.validator == Subscribe(v, req.namespace) && h.response == Subscribed(publisherPort)
  {
    match req
    case WriteRequest(ns, msg) =>
      var (v', record) := Write(c, v, ns, msg, now);
      Handled(v', Written(record), if ns in v'.activeSubscriptions then Some((ns, record)) else None)
    case ReadRangeRequest(ns, start, end) =>
      Handled(v, RangeRead(ReadRange(v, ns, start, end)), None)
    case ReadMessageRequest(ns, msgId) =>
      Handled(v, MessageRead(ReadMessage(c, v, ns, msgId, now)), None)
    case SubscribeRequest(ns) =>
      Handled(Subscribe(v, ns), Subscribed(publisherPort), None)
  }

  // ---------------------------------------------------------------------------
  // What an honest validator's answers mean to a client
  // ---------------------------------------------------------------------------

  /**
   * Every stored record sits under its own digest and carries this
   * validator's signature over that digest.
   */
  ghost predicate HonestStore(c: Crypto, v: Validator) {
    forall ns | ns in v.store.recordMaps ::
      forall i | 0 <= i < |v.store.recordMaps[ns].entries| ::
        var e := v.store.recordMaps[ns].entries[i];
        e.key == RecordDigest(c, e.record, ns) && RecordVerifies(c, PublicKeyOf(c, v), ns, e.record)
  }

  /** A written record passes all of the client's write checks under this validator's key. */
  lemma HonestWriteAccepted(c: Crypto, v: Validator, ns: Namespace, msg: Message, now: Timestamp, validators: Validators, index: nat)
    requires SignaturesVerify(c)
    requires index in validators && validators[index] == PublicKeyOf(c, v)
    ensures AcceptsWrite(c, validators, ns, msg, Reply(index, Some(Write(c, v, ns, msg, now).1)))
  {
  }

  /** An unavailability answer passes the client's check under this validator's key. */
  lemma HonestUnavailableAccepted(c: Crypto, v: Validator, ns: Namespace, msgId: B256, now: Timestamp, validators: Validators, index: nat)
    requires SignaturesVerify(c)
    requires index in validators && validators[index] == PublicKeyOf(c, v)
    requires ReadMessage(c, v, ns, msgId, now).Unavailable?
    ensures AcceptsUnavailable(c, validators, Reply(index, Some(ReadMessage(c, v, ns, msgId, now))))
  {
  }

  /** Handling any request keeps the store honest and every namespace within capacity. */
  lemma HandleKeepsStoreHonest(c: Crypto, v: Validator, req: Request, now: Timestamp, publisherPort: nat)
    requires SignaturesVerify(c) && StoreValid(v.store) && HonestStore(c, v)
    ensures StoreValid(Handle(c, v, req, now, publisherPort).validator.store)
    ensures HonestStore(c, Handle(c, v, req, now, publisherPort).validator)
  {
    if req.WriteRequest? {
      var ns, msg := req.namespace, req.message;
      var (v', record) := Write(c, v, ns, msg, now);
      WriteOneValid(c, v.store, ns, record);
      var old_ := if ns in v.store.recordMaps then v.store.recordMaps[ns] else FifoMap(v.store.cap, []);
      var key := RecordDigest(c, record, ns);
      forall i | 0 <= i < |v'.store.recordMaps[ns].entries|
        ensures var e := v'.store.recordMaps[ns].entries[i];
          e.key == RecordDigest(c, e.record, ns) && RecordVerifies(c, PublicKeyOf(c, v'), ns, e.record)
      {
        EntryOrigin(old_, key, record, i);
        var e := v'.store.recordMaps[ns].entries[i];
        if e.key != key {
          var j :| 0 <= j < |old_.entries| && old_.entries[j] == e;
        } else {
          EntryWithNewKey(old_, key, record, i);
        }
      }
    }
  }

  /**
   * An entry under the inserted key is the new one, provided the old map
   * held each key under its own digest.
   */
  lemma EntryWithNewKey(f: FifoMap, key: B256, record: Record, i: nat)
    requires i < |FifoInsert(f, key, record).entries|
    requires FifoInsert(f, key, record).entries[i].key == key
    requires FifoValid(f)
    ensures FifoInsert(f, key, record).entries[i].record == record
  {
    var r := FifoInsert(f, key, record);
    match IndexOfKey(f.entries, key)
    case Some(k) =>
    case None =>
      var grown := f.entries + [Entry(key, record)];
      var d := |grown| - |r.entries|;
      assert r.entries[i] == grown[i + d];
  }

  /** Every log an honest validator returns for a range read passes the client's verification. */
  lemma HonestRangeReadVerifies(c: Crypto, v: Validator, ns: Namespace, start: Timestamp, end: Timestamp)
    requires HonestStore(c, v)
    ensures LogVerifies(c, PublicKeyOf(c, v), ns, ReadRange(v, ns, start, end))
  {
    var log := ReadRange(v, ns, start, end);
    forall k | 0 <= k < |log.records|
      ensures RecordVerifies(c, PublicKeyOf(c, v), ns, log.records[k])
    {
      var r := log.records[k];
      assert r in log.records;
      var es := v.store.recordMaps[ns].entries;
      assert r in Values(es);
      var i :| 0 <= i < |es| && Values(es)[i] == r;
    }
  }
}
