/**
 * The client's response folds (`src/client/client.rs`). A request is sent to
 * every connected validator and the replies are consumed one at a time; the
 * model takes their arrival order as an input sequence of slots. A slot is
 * `None` when the request failed or timed out, which ends the source's
 * `while let Some(Some(..))` loop; a reply whose bytes do not deserialise
 * has `body == None` and is skipped.
 */
module Client {
  import opened Wrappers
  import opened Common
  import opened Sorting
  import opened Median
  import opened Quorum

  /** A validator's reply; `body` is `None` when its bytes did not deserialise. */
  datatype Reply<T> = Reply(index: nat, body: Option<T>)

  /** One item of the response stream: `None` is a failed or timed-out request. */
  type Slot<T> = Option<Reply<T>>

  /** The client's map from validator index to BLS public key. */
  type Validators = map<nat, PublicKey>

  /** A reply counted towards a quorum: who signed, the timestamp, the signature. */
  datatype Vote = Vote(index: nat, timestamp: Timestamp, signature: Signature)

  /** Why a call panics instead of returning. */
  datatype Panic =
    | MissingSignature   // `expect("Quorum passed")` on an aggregate nothing was added to
    | TimestampOverflow  // the `u128` sum of the two middle timestamps overflows (a build with overflow checks)
    | IndexOutOfRange    // `timestamps[index]` for a counted vote whose validator index is not below the validator count

  // ---------------------------------------------------------------------------
  // The response stream
  // ---------------------------------------------------------------------------

  /** How many slots the loop can read before the first failed one. */
  function LiveLength<T>(slots: seq<Slot<T>>): (k: nat)
    ensures k <= |slots|
    ensures forall i | 0 <= i < k :: slots[i].Some?
    ensures k < |slots| ==> slots[k].None?
  {
    if |slots| == 0 || slots[0].None? then 0 else 1 + LiveLength(slots[1..])
  }

  lemma LiveStep<T>(slots: seq<Slot<T>>, i: nat)
    requires i <= LiveLength(slots) && i < |slots| && slots[i].Some?
    ensures i < LiveLength(slots)
  {
  }

  /**
   * The replies come from the client's own sockets, one per connected
   * validator. `connect_validator` inserts a validator's key and socket under
   * the same index, so each replying index is a key of the validator map and
   * no index replies twice. Indices need not lie below the validator count:
   * the map may hold any `u64` keys.
   */
  predicate FromConnectedValidators<T>(validators: Validators, slots: seq<Slot<T>>) {
    && (forall i | 0 <= i < |slots| && slots[i].Some? :: slots[i].value.index in validators)
    && (forall i, j | 0 <= i < j < |slots| && slots[i].Some? && slots[j].Some? ::
          slots[i].value.index != slots[j].value.index)
  }

  /** The indices of the validators that replied, in arrival order. */
  function ReplyIndices<T>(slots: seq<Slot<T>>): (r: seq<nat>)
    ensures |r| <= |slots|
    ensures forall k | 0 <= k < |r| :: exists i | 0 <= i < |slots| :: slots[i].Some? && slots[i].value.index == r[k]
  {
    if |slots| == 0 then []
    else
      var init := ReplyIndices(slots[..|slots| - 1]);
      assert forall i | 0 <= i < |slots| - 1 :: slots[..|slots| - 1][i] == slots[i];
      match slots[|slots| - 1]
      case Some(reply) => init + [reply.index]
      case None => init
  }

  lemma {:induction false} RepliesDistinct<T>(validators: Validators, slots: seq<Slot<T>>)
    requires FromConnectedValidators(validators, slots)
    ensures Distinct(ReplyIndices(slots))
    ensures forall k | 0 <= k < |ReplyIndices(slots)| :: ReplyIndices(slots)[k] in validators
  {
    if |slots| > 0 {
      var init := slots[..|slots| - 1];
      assert FromConnectedValidators(validators, init);
      RepliesDistinct(validators, init);
      var ri := ReplyIndices(init);
      if slots[|slots| - 1].Some? {
        var last := slots[|slots| - 1].value.index;
        forall k | 0 <= k < |ri|
          ensures ri[k] != last
        {
          var i :| 0 <= i < |init| && init[i].Some? && init[i].value.index == ri[k];
          assert slots[i] == init[i];
        }
      }
    }
  }

  /** No more validators reply than there are validators. */
  lemma RepliesBounded<T>(validators: Validators, slots: seq<Slot<T>>)
    requires FromConnectedValidators(validators, slots)
    ensures |ReplyIndices(slots)| <= |validators|
  {
    RepliesDistinct(validators, slots);
    DistinctWithin(ReplyIndices(slots), validators.Keys);
  }

  // ---------------------------------------------------------------------------
  // Tallies
  // ---------------------------------------------------------------------------

  /**
   * The votes collected from `slots` in arrival order: `accept` says whether
   * a reply passes the checks and, if so, what vote it casts.
   */
  function Tally<T>(slots: seq<Slot<T>>, accept: Reply<T> -> Option<Vote>): (vs: seq<Vote>)
    ensures |vs| <= |ReplyIndices(slots)|
    ensures forall k | 0 <= k < |vs| ::
      exists i | 0 <= i < |slots| :: slots[i].Some? && accept(slots[i].value) == Some(vs[k])
  {
    if |slots| == 0 then []
    else
      var init := Tally(slots[..|slots| - 1], accept);
      forall k | 0 <= k < |init|
        ensures exists i | 0 <= i < |slots| :: slots[i].Some? && accept(slots[i].value) == Some(init[k])
      {
        var i := TallyOrigin(slots[..|slots| - 1], accept, init[k]);
        assert slots[i] == slots[..|slots| - 1][i];
      }
      match slots[|slots| - 1]
      case Some(reply) =>
        (match accept(reply)
         case Some(v) => init + [v]
         case None => init)
      case None => init
  }

  /** The slot a counted vote came from, as a witness. */
  lemma TallyOrigin<T>(slots: seq<Slot<T>>, accept: Reply<T> -> Option<Vote>, v: Vote) returns (i: nat)
    requires exists i | 0 <= i < |slots| :: slots[i].Some? && accept(slots[i].value) == Some(v)
    ensures i < |slots| && slots[i].Some? && accept(slots[i].value) == Some(v)
  {
    i :| 0 <= i < |slots| && slots[i].Some? && accept(slots[i].value) == Some(v);
  }

  /** Reading one more live reply adds its vote, if it casts one. */
  lemma TallyStep<T>(slots: seq<Slot<T>>, accept: Reply<T> -> Option<Vote>, i: nat)
    requires i < |slots| && slots[i].Some?
    ensures accept(slots[i].value).Some? ==>
      Tally(slots[..i + 1], accept) == Tally(slots[..i], accept) + [accept(slots[i].value).value]
    ensures accept(slots[i].value).None? ==>
      Tally(slots[..i + 1], accept) == Tally(slots[..i], accept)
  {
    assert slots[..i + 1][..i] == slots[..i];
  }

  /** Reading more replies never loses a vote: the earlier tally is a prefix of the later one. */
  lemma TallyGrows<T>(slots: seq<Slot<T>>, accept: Reply<T> -> Option<Vote>, k: nat, k': nat)
    requires k <= k' <= |slots|
    ensures Tally(slots[..k], accept) <= Tally(slots[..k'], accept)
    ensures |Tally(slots[..k], accept)| <= |Tally(slots[..k'], accept)|
  {
    assert slots[..k'][..k] == slots[..k];
    TallyPrefixShorter(slots[..k'], accept, k);
  }

  /** The votes of a prefix of the slots are a prefix of the votes of all of them. */
  lemma {:induction false} TallyPrefixShorter<T>(slots: seq<Slot<T>>, accept: Reply<T> -> Option<Vote>, k: nat)
    requires k <= |slots|
    ensures Tally(slots[..k], accept) <= Tally(slots, accept)
  {
    if k < |slots| {
      var init := slots[..|slots| - 1];
      assert init[..k] == slots[..k];
      TallyPrefixShorter(init, accept, k);
    } else {
      assert slots[..k] == slots;
    }
  }

  /** Two tallies that never accept the same reply together count at most one vote per reply. */
  lemma {:induction false} TalliesDisjoint<T>(slots: seq<Slot<T>>, f: Reply<T> -> Option<Vote>, g: Reply<T> -> Option<Vote>)
    requires forall r :: f(r).None? || g(r).None?
    ensures |Tally(slots, f)| + |Tally(slots, g)| <= |ReplyIndices(slots)|
  {
    if |slots| > 0 {
      TalliesDisjoint(slots[..|slots| - 1], f, g);
    }
  }

  /** The aggregate signature, as the sequence of signatures added to it. */
  function Signatures(vs: seq<Vote>): (r: seq<Signature>)
    ensures |r| == |vs|
    ensures forall k | 0 <= k < |vs| :: r[k] == vs[k].signature
  {
    if |vs| == 0 then [] else Signatures(vs[..|vs| - 1]) + [vs[|vs| - 1].signature]
  }

  /** The timestamp the latest vote from validator `j` carried, or `Timestamp::default()`. */
  function LatestTimestamp(vs: seq<Vote>, j: int): Timestamp {
    if |vs| == 0 then 0
    else if vs[|vs| - 1].index == j then vs[|vs| - 1].timestamp
    else LatestTimestamp(vs[..|vs| - 1], j)
  }

  /** The pre-allocated timestamp vector, indexed by validator, after the votes `vs`. */
  function TimestampVector(n: nat, vs: seq<Vote>): (r: seq<Timestamp>)
    ensures |r| == n
  {
    seq(n, j => LatestTimestamp(vs, j))
  }

  /**
   * `timestamps[index] = timestamp` is the vector of the extended tally; a
   * vote from an index outside the vector leaves no entry of it changed.
   */
  lemma TimestampVectorStep(n: nat, vs: seq<Vote>, v: Vote)
    ensures v.index < n ==> TimestampVector(n, vs + [v]) == TimestampVector(n, vs)[v.index := v.timestamp]
    ensures v.index >= n ==> TimestampVector(n, vs + [v]) == TimestampVector(n, vs)
  {
    assert (vs + [v])[..|vs|] == vs;
  }

  /** Every vote comes from an index below `n`, so `timestamps[index]` stays in range. */
  predicate IndicesBelow(n: nat, vs: seq<Vote>) {
    forall k | 0 <= k < |vs| :: vs[k].index < n
  }

  /** One more vote keeps the indices in range exactly when its own index is. */
  lemma IndicesBelowAppend(n: nat, vs: seq<Vote>, v: Vote)
    ensures IndicesBelow(n, vs + [v]) <==> IndicesBelow(n, vs) && v.index < n
  {
    assert forall k | 0 <= k < |vs| :: (vs + [v])[k] == vs[k];
    assert (vs + [v])[|vs|] == v;
  }

  /** A prefix of votes in range is in range. */
  lemma IndicesBelowPrefix(n: nat, vs: seq<Vote>, ws: seq<Vote>)
    requires vs <= ws && IndicesBelow(n, ws)
    ensures IndicesBelow(n, vs)
  {
    assert forall k | 0 <= k < |vs| :: vs[k] == ws[k];
  }

  /** The validators the votes came from, in tally order. */
  function Voters(vs: seq<Vote>): (r: seq<nat>)
    ensures |r| == |vs| && forall k | 0 <= k < |vs| :: r[k] == vs[k].index
  {
    seq(|vs|, k requires 0 <= k < |vs| => vs[k].index)
  }

  /**
   * With each validator voting at most once, the vector holds each voter's
   * timestamp at that voter's index and `Timestamp::default()` (0) at every
   * validator that did not vote; the median is taken over those zeros too.
   */
  lemma {:induction false} TimestampVectorEntries(n: nat, vs: seq<Vote>)
    requires forall p | 0 <= p < |vs| :: vs[p].index < n
    requires forall p, q | 0 <= p < q < |vs| :: vs[p].index != vs[q].index
    ensures forall p | 0 <= p < |vs| :: TimestampVector(n, vs)[vs[p].index] == vs[p].timestamp
    ensures forall j | 0 <= j < n && j !in Voters(vs) :: TimestampVector(n, vs)[j] == 0
  {
    if |vs| > 0 {
      var init, v := vs[..|vs| - 1], vs[|vs| - 1];
      TimestampVectorEntries(n, init);
      assert vs == init + [v];
      TimestampVectorStep(n, init, v);
      forall j | 0 <= j < n && j !in Voters(vs)
        ensures TimestampVector(n, vs)[j] == 0
      {
        assert Voters(vs)[|vs| - 1] == v.index;
      }
    }
  }

  /**
   * Before the first reply nothing can have reached quorum, unless there are
   * no validators, in which case no reply arrives at all.
   */
  lemma EmptyTallyHasNoQuorum<T>(validators: Validators, slots: seq<Slot<T>>)
    requires FromConnectedValidators(validators, slots)
    requires 0 < |slots| && slots[0].Some?
    ensures |validators| > 0 && !HasReachedQuorum(|validators|, 0)
  {
    assert slots[0].value.index in validators.Keys;
  }

  // ---------------------------------------------------------------------------
  // write
  // ---------------------------------------------------------------------------

  /**
   * The checks a write reply passes to be counted, in source order: it
   * deserialises, carries the submitted message, and its signature verifies
   * under the replying validator's key over the record digest.
   */
  predicate AcceptsWrite(c: Crypto, validators: Validators, ns: Namespace, msg: Message, r: Reply<Record>) {
    && r.index in validators
    && r.body.Some?
    && r.body.value.message == msg
    && c.verify(r.body.value.signature, validators[r.index], RecordDigest(c, r.body.value, ns))
  }

  function WriteVote(c: Crypto, validators: Validators, ns: Namespace, msg: Message): Reply<Record> -> Option<Vote> {
    r =>
      if AcceptsWrite(c, validators, ns, msg, r)
      then Some(Vote(r.index, r.body.value.timestamp, r.body.value.signature))
      else None
  }

  /** The votes a write collects from `slots`, in arrival order. */
  function WriteVotes(c: Crypto, validators: Validators, ns: Namespace, msg: Message, slots: seq<Slot<Record>>): seq<Vote> {
    Tally(slots, WriteVote(c, validators, ns, msg))
  }

  /**
   * Every counted write vote is a signature, under the key of a replying
   * validator, over the digest of the submitted message at the timestamp
   * the vote carries.
   */
  lemma WriteVotesVerify(c: Crypto, validators: Validators, ns: Namespace, msg: Message, slots: seq<Slot<Record>>)
    ensures forall v | v in WriteVotes(c, validators, ns, msg, slots) ::
      && v.index in validators
      && (exists i | 0 <= i < |slots| :: slots[i].Some? && slots[i].value.index == v.index)
      && c.verify(v.signature, validators[v.index], MessageDigest(c, msg, v.timestamp, ns))
  {
    var vs := WriteVotes(c, validators, ns, msg, slots);
    forall v | v in vs
      ensures v.index in validators
      ensures exists i | 0 <= i < |slots| :: slots[i].Some? && slots[i].value.index == v.index
      ensures c.verify(v.signature, validators[v.index], MessageDigest(c, msg, v.timestamp, ns))
    {
      var k :| 0 <= k < |vs| && vs[k] == v;
      var i :| 0 <= i < |slots| && slots[i].Some? && WriteVote(c, validators, ns, msg)(slots[i].value) == Some(v);
      var rec := slots[i].value.body.value;
      assert RecordDigest(c, rec, ns) == MessageDigest(c, msg, v.timestamp, ns);
    }
  }

  /** No prefix of the slots shorter than `i` reached a write quorum. */
  predicate WriteQuorumNotBefore(c: Crypto, validators: Validators, ns: Namespace, msg: Message, slots: seq<Slot<Record>>, i: nat)
    requires i <= |slots|
  {
    forall k | 0 <= k < i :: !HasReachedQuorum(|validators|, |WriteVotes(c, validators, ns, msg, slots[..k])|)
  }

  lemma WriteQuorumNotBeforeStep(c: Crypto, validators: Validators, ns: Namespace, msg: Message, slots: seq<Slot<Record>>, i: nat)
    requires i < |slots|
    requires WriteQuorumNotBefore(c, validators, ns, msg, slots, i)
    requires !HasReachedQuorum(|validators|, |WriteVotes(c, validators, ns, msg, slots[..i])|)
    ensures WriteQuorumNotBefore(c, validators, ns, msg, slots, i + 1)
  {
  }

  datatype WriteOutcome =
    | Certified(record: CertifiedRecord)
    | NoQuorum(got: nat, needed: nat)
    | WritePanicked(reason: Panic)

  /** The vote count, timestamp vector and aggregate of `write` after reading `slots`. */
  predicate WriteTallyMatches(c: Crypto, validators: Validators, ns: Namespace, msg: Message, slots: seq<Slot<Record>>,
                              votes: nat, timestamps: seq<Timestamp>, aggregate: seq<Signature>) {
    var vs := WriteVotes(c, validators, ns, msg, slots);
    votes == |vs| && aggregate == Signatures(vs) && timestamps == TimestampVector(|validators|, vs)
  }

  /**
   * One iteration of the loop of `write`. `outOfRange` is the panic of
   * `timestamps[index]`: the reply was counted, but its index lies outside
   * the vector.
   */
  method WriteStep(c: Crypto, validators: Validators, ns: Namespace, msg: Message, slots: seq<Slot<Record>>, i: nat,
                   votes: nat, timestamps: seq<Timestamp>, aggregate: seq<Signature>)
    returns (votes': nat, timestamps': seq<Timestamp>, aggregate': seq<Signature>, outOfRange: bool)
    requires FromConnectedValidators(validators, slots)
    requires i < |slots| && slots[i].Some?
    requires WriteTallyMatches(c, validators, ns, msg, slots[..i], votes, timestamps, aggregate)
    ensures WriteTallyMatches(c, validators, ns, msg, slots[..i + 1], votes', timestamps', aggregate')
    ensures outOfRange <==> AcceptsWrite(c, validators, ns, msg, slots[i].value) && slots[i].value.index >= |validators|
    ensures IndicesBelow(|validators|, WriteVotes(c, validators, ns, msg, slots[..i + 1]))
        <==> IndicesBelow(|validators|, WriteVotes(c, validators, ns, msg, slots[..i])) && !outOfRange
  {
    var reply := slots[i].value;
    TallyStep(slots, WriteVote(c, validators, ns, msg), i);
    outOfRange := false;
    if AcceptsWrite(c, validators, ns, msg, reply) {
      var record := reply.body.value;
      var vote := Vote(reply.index, record.timestamp, record.signature);
      assert WriteVote(c, validators, ns, msg)(reply) == Some(vote);
      TimestampVectorStep(|validators|, WriteVotes(c, validators, ns, msg, slots[..i]), vote);
      IndicesBelowAppend(|validators|, WriteVotes(c, validators, ns, msg, slots[..i]), vote);
      aggregate' := aggregate + [record.signature];
      votes' := votes + 1;
      if reply.index < |timestamps| {
        timestamps' := timestamps[reply.index := record.timestamp];
      } else {
        timestamps' := timestamps;
        outOfRange := true;
      }
    } else {
      assert WriteVote(c, validators, ns, msg)(reply) == None;
      votes', timestamps', aggregate' := votes, timestamps, aggregate;
    }
  }

  /**
   * The loop of `Client::write`: reads replies until a quorum of accepted
   * votes, the end of the live replies, or a counted vote whose index lies
   * outside the timestamp vector (`outOfRange`, where the source panics).
   * Returns how many slots it read and the vote count, timestamp vector and
   * aggregate signature at that point.
   */
  method TallyWrite(c: Crypto, validators: Validators, ns: Namespace, msg: Message, slots: seq<Slot<Record>>)
    returns (consumed: nat, votes: nat, timestamps: seq<Timestamp>, aggregate: seq<Signature>, outOfRange: bool)
    requires FromConnectedValidators(validators, slots)
    ensures consumed <= LiveLength(slots)
    ensures outOfRange <==> !IndicesBelow(|validators|, WriteVotes(c, validators, ns, msg, slots[..consumed]))
    ensures outOfRange ==> 0 < consumed && IndicesBelow(|validators|, WriteVotes(c, validators, ns, msg, slots[..consumed - 1]))
    ensures !outOfRange ==>
      consumed == LiveLength(slots) || HasReachedQuorum(|validators|, |WriteVotes(c, validators, ns, msg, slots[..consumed])|)
    ensures WriteQuorumNotBefore(c, validators, ns, msg, slots, consumed)
    ensures WriteTallyMatches(c, validators, ns, msg, slots[..consumed], votes, timestamps, aggregate)
  {
    var n := |validators|;
    var i := 0;
    votes, timestamps, aggregate := 0, seq(n, _ => 0), [];
    outOfRange := false;
    var stop := false;
    while i < |slots| && slots[i].Some? && !stop && !outOfRange
      invariant i <= LiveLength(slots)
      invariant WriteTallyMatches(c, validators, ns, msg, slots[..i], votes, timestamps, aggregate)
      invariant WriteQuorumNotBefore(c, validators, ns, msg, slots, i)
      invariant outOfRange <==> !IndicesBelow(n, WriteVotes(c, validators, ns, msg, slots[..i]))
      invariant outOfRange ==> 0 < i && IndicesBelow(n, WriteVotes(c, validators, ns, msg, slots[..i - 1]))
      invariant stop ==> HasReachedQuorum(n, votes)
      invariant !stop && !outOfRange && i > 0 ==> !HasReachedQuorum(n, votes)
      decreases |slots| - i
    {
      LiveStep(slots, i);
      EmptyTallyHasNoQuorum(validators, slots);
      WriteQuorumNotBeforeStep(c, validators, ns, msg, slots, i);
      votes, timestamps, aggregate, outOfRange := WriteStep(c, validators, ns, msg, slots, i, votes, timestamps, aggregate);
      i := i + 1;
      if !outOfRange && HasReachedQuorum(n, votes) {
        stop := true;
      }
    }
    consumed := i;
  }

  /**
   * `Client::write`: tallies the replies, then certifies the message with the
   * median timestamp and the aggregate signature, or reports `NoQuorum`.
   * `consumed` is how many slots were read.
   */
  method Write(c: Crypto, validators: Validators, ns: Namespace, msg: Message, slots: seq<Slot<Record>>)
    returns (out: WriteOutcome, consumed: nat)
    requires FromConnectedValidators(validators, slots)
    ensures consumed <= LiveLength(slots)
    ensures WriteQuorumNotBefore(c, validators, ns, msg, slots, consumed)
    ensures out == WritePanicked(IndexOutOfRange) <==>
      !IndicesBelow(|validators|, WriteVotes(c, validators, ns, msg, slots[..consumed]))
    ensures out == WritePanicked(IndexOutOfRange) ==>
      0 < consumed && IndicesBelow(|validators|, WriteVotes(c, validators, ns, msg, slots[..consumed - 1]))
    ensures IndicesBelow(|validators|, WriteVotes(c, validators, ns, msg, slots[..LiveLength(slots)])) ==>
      out != WritePanicked(IndexOutOfRange)
    ensures out != WritePanicked(IndexOutOfRange) ==>
      consumed == LiveLength(slots) || HasReachedQuorum(|validators|, |WriteVotes(c, validators, ns, msg, slots[..consumed])|)
    ensures out != WritePanicked(IndexOutOfRange) ==>
      (out.NoQuorum? <==> !HasReachedQuorum(|validators|, |WriteVotes(c, validators, ns, msg, slots[..LiveLength(slots)])|))
    ensures out.NoQuorum? ==>
      out.got == |WriteVotes(c, validators, ns, msg, slots[..LiveLength(slots)])| && out.needed == |validators|
    ensures out == WritePanicked(MissingSignature) <==> |validators| == 0
    ensures out == WritePanicked(TimestampOverflow) <==>
      && |validators| > 0
      && IndicesBelow(|validators|, WriteVotes(c, validators, ns, msg, slots[..consumed]))
      && HasReachedQuorum(|validators|, |WriteVotes(c, validators, ns, msg, slots[..consumed])|)
      && !MedianFits(TimestampVector(|validators|, WriteVotes(c, validators, ns, msg, slots[..consumed])))
    ensures out.Certified? ==>
      var vs := WriteVotes(c, validators, ns, msg, slots[..consumed]);
      && IndicesBelow(|validators|, vs)
      && HasReachedQuorum(|validators|, |vs|)
      && out.record.message == Some(msg)
      && out.record.quorumSignature == Signatures(vs)
      && Ascending(out.record.timestamps)
      && multiset(out.record.timestamps) == multiset(TimestampVector(|validators|, vs))
  {
    var n := |validators|;
    var votes, timestamps, aggregate, outOfRange;
    consumed, votes, timestamps, aggregate, outOfRange := TallyWrite(c, validators, ns, msg, slots);
    assert FromConnectedValidators(validators, slots[..consumed]);
    RepliesBounded(validators, slots[..consumed]);
    if outOfRange {
      WritePanicWithinLive(c, validators, ns, msg, slots, consumed);
      out := WritePanicked(IndexOutOfRange);
      return;
    }
    WriteQuorumSettled(c, validators, ns, msg, slots, consumed);
    out := WriteVerdict(n, msg, WriteVotes(c, validators, ns, msg, slots[..consumed]), votes, timestamps, aggregate);
  }

  /**
   * The end of `write` once the loop has stopped with every counted index in
   * range: without quorum `NoQuorum`; with it, the aggregate must hold a
   * signature and the median must fit, and the record is certified.
   */
  method WriteVerdict(n: nat, msg: Message, ghost vs: seq<Vote>, votes: nat, timestamps: seq<Timestamp>, aggregate: seq<Signature>)
    returns (out: WriteOutcome)
    requires |vs| <= n
    requires votes == |vs| && timestamps == TimestampVector(n, vs) && aggregate == Signatures(vs)
    ensures out != WritePanicked(IndexOutOfRange)
    ensures out.NoQuorum? <==> !HasReachedQuorum(n, |vs|)
    ensures out.NoQuorum? ==> out.got == |vs| && out.needed == n
    ensures out == WritePanicked(MissingSignature) <==> n == 0
    ensures out == WritePanicked(TimestampOverflow) <==> n > 0 && HasReachedQuorum(n, |vs|) && !MedianFits(TimestampVector(n, vs))
    ensures out.Certified? ==>
      && HasReachedQuorum(n, |vs|)
      && out.record.message == Some(msg)
      && out.record.quorumSignature == Signatures(vs)
      && Ascending(out.record.timestamps)
      && multiset(out.record.timestamps) == multiset(TimestampVector(n, vs))
  {
    if !HasReachedQuorum(n, votes) {
      out := NoQuorum(votes, n);
      return;
    }
    if aggregate == [] {
      out := WritePanicked(MissingSignature);
      return;
    }
    if !MedianFits(timestamps) {
      out := WritePanicked(TimestampOverflow);
      return;
    }
    var certified := CertifyRecord(CertifiedRecord(timestamps, Some(msg), aggregate));
    out := Certified(certified.1);
  }

  /** If every vote over the live replies is in range, so is every vote over a prefix of them. */
  lemma WritePanicWithinLive(c: Crypto, validators: Validators, ns: Namespace, msg: Message, slots: seq<Slot<Record>>, consumed: nat)
    requires consumed <= LiveLength(slots)
    ensures IndicesBelow(|validators|, WriteVotes(c, validators, ns, msg, slots[..LiveLength(slots)])) ==>
      IndicesBelow(|validators|, WriteVotes(c, validators, ns, msg, slots[..consumed]))
  {
    var n, live := |validators|, LiveLength(slots);
    TallyGrows(slots, WriteVote(c, validators, ns, msg), consumed, live);
    if IndicesBelow(n, WriteVotes(c, validators, ns, msg, slots[..live])) {
      IndicesBelowPrefix(n, WriteVotes(c, validators, ns, msg, slots[..consumed]), WriteVotes(c, validators, ns, msg, slots[..live]));
    }
  }

  /**
   * Whether the tally at the stopping point has quorum is decided by the
   * whole live prefix: reading further never loses a quorum, and the loop
   * only stops early on one. With no validators the tally is empty.
   */
  lemma WriteQuorumSettled(c: Crypto, validators: Validators, ns: Namespace, msg: Message, slots: seq<Slot<Record>>, consumed: nat)
    requires FromConnectedValidators(validators, slots)
    requires consumed <= LiveLength(slots)
    requires consumed == LiveLength(slots)
          || HasReachedQuorum(|validators|, |WriteVotes(c, validators, ns, msg, slots[..consumed])|)
    ensures HasReachedQuorum(|validators|, |WriteVotes(c, validators, ns, msg, slots[..consumed])|)
        <==> HasReachedQuorum(|validators|, |WriteVotes(c, validators, ns, msg, slots[..LiveLength(slots)])|)
    ensures |validators| == 0 ==> |WriteVotes(c, validators, ns, msg, slots[..consumed])| == 0
  {
    var live := LiveLength(slots);
    assert FromConnectedValidators(validators, slots[..live]);
    RepliesBounded(validators, slots[..live]);
    TallyGrows(slots, WriteVote(c, validators, ns, msg), consumed, live);
  }

  // ---------------------------------------------------------------------------
  // read_message
  // ---------------------------------------------------------------------------

  /**
   * An `Available` reply is counted when the message it returns has the
   * requested id and its record signature verifies under the replying
   * validator's key.
   */
  predicate AcceptsAvailable(c: Crypto, validators: Validators, ns: Namespace, msgId: B256, r: Reply<ReadMessageResponse>) {
    && r.index in validators
    && r.body.Some? && r.body.value.Available?
    && c.messageId(ns, r.body.value.record.message) == msgId
    && c.verify(r.body.value.record.signature, validators[r.index], RecordDigest(c, r.body.value.record, ns))
  }

  /**
   * An `Unavailable` reply is counted when its signature verifies under the
   * replying validator's key; the id it carries is not compared with the
   * requested one.
   */
  predicate AcceptsUnavailable(c: Crypto, validators: Validators, r: Reply<ReadMessageResponse>) {
    && r.index in validators
    && r.body.Some? && r.body.value.Unavailable?
    && c.verify(r.body.value.unavailable.signature, validators[r.index], UnavailableDigest(c, r.body.value.unavailable))
  }

  function AvailableVote(c: Crypto, validators: Validators, ns: Namespace, msgId: B256): Reply<ReadMessageResponse> -> Option<Vote> {
    r =>
      if AcceptsAvailable(c, validators, ns, msgId, r)
      then Some(Vote(r.index, r.body.value.record.timestamp, r.body.value.record.signature))
      else None
  }

  function UnavailableVote(c: Crypto, validators: Validators): Reply<ReadMessageResponse> -> Option<Vote> {
    r =>
      if AcceptsUnavailable(c, validators, r)
      then Some(Vote(r.index, r.body.value.unavailable.timestamp, r.body.value.unavailable.signature))
      else None
  }

  function AvailableVotes(c: Crypto, validators: Validators, ns: Namespace, msgId: B256, slots: seq<Slot<ReadMessageResponse>>): seq<Vote> {
    Tally(slots, AvailableVote(c, validators, ns, msgId))
  }

  function UnavailableVotes(c: Crypto, validators: Validators, slots: seq<Slot<ReadMessageResponse>>): seq<Vote> {
    Tally(slots, UnavailableVote(c, validators))
  }

  /**
   * The message the client remembers: that of the latest `Available` reply
   * whose message has the requested id. It is taken before the signature is
   * checked, so a reply with a bad signature can still supply it.
   */
  function MatchingMessage(c: Crypto, ns: Namespace, msgId: B256, slots: seq<Slot<ReadMessageResponse>>): (m: Option<Message>)
    ensures m.Some? ==> c.messageId(ns, m.value) == msgId
  {
    if |slots| == 0 then None
    else
      var last := slots[|slots| - 1];
      if last.Some? && last.value.body.Some? && last.value.body.value.Available?
         && c.messageId(ns, last.value.body.value.record.message) == msgId
      then Some(last.value.body.value.record.message)
      else MatchingMessage(c, ns, msgId, slots[..|slots| - 1])
  }

  lemma MatchingMessageStep(c: Crypto, ns: Namespace, msgId: B256, slots: seq<Slot<ReadMessageResponse>>, i: nat)
    requires i < |slots| && slots[i].Some?
    ensures
      var b := slots[i].value.body;
      MatchingMessage(c, ns, msgId, slots[..i + 1]) ==
        if b.Some? && b.value.Available? && c.messageId(ns, b.value.record.message) == msgId
        then Some(b.value.record.message)
        else MatchingMessage(c, ns, msgId, slots[..i])
  {
    assert slots[..i + 1][..i] == slots[..i];
  }

  /** Once an `Available` reply has been counted, the client holds a message with the requested id. */
  lemma {:induction false} CountedAvailableSuppliesMessage(c: Crypto, validators: Validators, ns: Namespace, msgId: B256, slots: seq<Slot<ReadMessageResponse>>)
    requires |AvailableVotes(c, validators, ns, msgId, slots)| > 0
    ensures MatchingMessage(c, ns, msgId, slots).Some?
  {
    var last := slots[|slots| - 1];
    if !(last.Some? && AvailableVote(c, validators, ns, msgId)(last.value).Some?) {
      CountedAvailableSuppliesMessage(c, validators, ns, msgId, slots[..|slots| - 1]);
    }
  }

  /** A reply is never counted as both available and unavailable. */
  lemma VotesExclusive(c: Crypto, validators: Validators, ns: Namespace, msgId: B256)
    ensures forall r :: AvailableVote(c, validators, ns, msgId)(r).None? || UnavailableVote(c, validators)(r).None?
  {
  }

  /** The loop of `read_message` stops once either tally has quorum or every validator has voted. */
  predicate ReadStops(n: nat, available: nat, unavailable: nat) {
    HasReachedQuorum(n, available) || HasReachedQuorum(n, unavailable) || available + unavailable >= n
  }

  predicate ReadStopsAt(c: Crypto, validators: Validators, ns: Namespace, msgId: B256, slots: seq<Slot<ReadMessageResponse>>, k: nat)
    requires k <= |slots|
  {
    ReadStops(|validators|, |AvailableVotes(c, validators, ns, msgId, slots[..k])|, |UnavailableVotes(c, validators, slots[..k])|)
  }

  /** No prefix of the slots shorter than `i` met the stopping rule. */
  predicate ReadNotStoppedBefore(c: Crypto, validators: Validators, ns: Namespace, msgId: B256, slots: seq<Slot<ReadMessageResponse>>, i: nat)
    requires i <= |slots|
  {
    forall k | 0 <= k < i :: !ReadStopsAt(c, validators, ns, msgId, slots, k)
  }

  lemma ReadNotStoppedBeforeStep(c: Crypto, validators: Validators, ns: Namespace, msgId: B256, slots: seq<Slot<ReadMessageResponse>>, i: nat)
    requires i < |slots|
    requires ReadNotStoppedBefore(c, validators, ns, msgId, slots, i)
    requires !ReadStopsAt(c, validators, ns, msgId, slots, i)
    ensures ReadNotStoppedBefore(c, validators, ns, msgId, slots, i + 1)
  {
  }

  /**
   * While a live reply is still to come, the two tallies together have not
   * reached the validator count: each reply casts at most one vote, and the
   * replies, including the next one, come from distinct validators.
   */
  lemma VotesBelowCountWhileLive(c: Crypto, validators: Validators, ns: Namespace, msgId: B256, slots: seq<Slot<ReadMessageResponse>>, k: nat)
    requires FromConnectedValidators(validators, slots)
    requires k < LiveLength(slots)
    ensures |AvailableVotes(c, validators, ns, msgId, slots[..k])| + |UnavailableVotes(c, validators, slots[..k])| < |validators|
  {
    VotesExclusive(c, validators, ns, msgId);
    TalliesDisjoint(slots[..k], AvailableVote(c, validators, ns, msgId), UnavailableVote(c, validators));
    assert slots[..k + 1][..k] == slots[..k];
    assert FromConnectedValidators(validators, slots[..k + 1]);
    RepliesBounded(validators, slots[..k + 1]);
  }

  /** The two tallies over any prefix together hold at most one vote per validator. */
  lemma ReadTalliesBounded(c: Crypto, validators: Validators, ns: Namespace, msgId: B256, slots: seq<Slot<ReadMessageResponse>>, k: nat)
    requires FromConnectedValidators(validators, slots)
    requires k <= |slots|
    ensures |AvailableVotes(c, validators, ns, msgId, slots[..k])| + |UnavailableVotes(c, validators, slots[..k])| <= |validators|
  {
    VotesExclusive(c, validators, ns, msgId);
    TalliesDisjoint(slots[..k], AvailableVote(c, validators, ns, msgId), UnavailableVote(c, validators));
    assert FromConnectedValidators(validators, slots[..k]);
    RepliesBounded(validators, slots[..k]);
  }

  /**
   * Whether either tally has quorum where the loop stops is decided by the
   * whole live prefix: it stops early only on a quorum, which further
   * replies cannot undo, or once every validator has voted, after which no
   * live reply remains.
   */
  lemma ReadMessageSettled(c: Crypto, validators: Validators, ns: Namespace, msgId: B256, slots: seq<Slot<ReadMessageResponse>>, consumed: nat)
    requires FromConnectedValidators(validators, slots)
    requires consumed <= LiveLength(slots)
    requires consumed == LiveLength(slots) || ReadStopsAt(c, validators, ns, msgId, slots, consumed)
    ensures
      var n, live := |validators|, LiveLength(slots);
      (HasReachedQuorum(n, |AvailableVotes(c, validators, ns, msgId, slots[..consumed])|)
       || HasReachedQuorum(n, |UnavailableVotes(c, validators, slots[..consumed])|))
      <==>
      (HasReachedQuorum(n, |AvailableVotes(c, validators, ns, msgId, slots[..live])|)
       || HasReachedQuorum(n, |UnavailableVotes(c, validators, slots[..live])|))
  {
    var n, live := |validators|, LiveLength(slots);
    if consumed < live {
      VotesBelowCountWhileLive(c, validators, ns, msgId, slots, consumed);
      assert FromConnectedValidators(validators, slots[..live]);
      VotesExclusive(c, validators, ns, msgId);
      TalliesDisjoint(slots[..live], AvailableVote(c, validators, ns, msgId), UnavailableVote(c, validators));
      RepliesBounded(validators, slots[..live]);
      TallyGrows(slots, AvailableVote(c, validators, ns, msgId), consumed, live);
      TallyGrows(slots, UnavailableVote(c, validators), consumed, live);
      var a, a' := |AvailableVotes(c, validators, ns, msgId, slots[..consumed])|, |AvailableVotes(c, validators, ns, msgId, slots[..live])|;
      var u, u' := |UnavailableVotes(c, validators, slots[..consumed])|, |UnavailableVotes(c, validators, slots[..live])|;
      if HasReachedQuorum(n, a) {
        QuorumMonotone(n, a, a');
      } else {
        QuorumMonotone(n, u, u');
      }
    }
  }

  /** The tallies, vectors, aggregates and remembered message of `read_message` after some replies. */
  datatype ReadMessageTally = ReadMessageTally(
    available: nat,
    unavailable: nat,
    availableTimestamps: seq<Timestamp>,
    unavailableTimestamps: seq<Timestamp>,
    availableSignatures: seq<Signature>,
    unavailableSignatures: seq<Signature>,
    message: Message)

  /** The state the loop of `read_message` holds after reading `slots`. */
  predicate TallyMatches(c: Crypto, validators: Validators, ns: Namespace, msgId: B256, slots: seq<Slot<ReadMessageResponse>>, t: ReadMessageTally) {
    var av := AvailableVotes(c, validators, ns, msgId, slots);
    var un := UnavailableVotes(c, validators, slots);
    && t.available == |av|
    && t.unavailable == |un|
    && t.availableTimestamps == TimestampVector(|validators|, av)
    && t.unavailableTimestamps == TimestampVector(|validators|, un)
    && t.availableSignatures == Signatures(av)
    && t.unavailableSignatures == Signatures(un)
    && t.message == MatchingMessage(c, ns, msgId, slots).GetOr(Message([]))
  }

  /** Every vote of either tally so far comes from an index inside the timestamp vectors. */
  predicate ReadIndicesBelow(c: Crypto, validators: Validators, ns: Namespace, msgId: B256, slots: seq<Slot<ReadMessageResponse>>) {
    && IndicesBelow(|validators|, AvailableVotes(c, validators, ns, msgId, slots))
    && IndicesBelow(|validators|, UnavailableVotes(c, validators, slots))
  }

  /**
   * One iteration of the loop of `read_message`. `outOfRange` is the panic
   * of `available_timestamps[index]` or `unavailable_timestamps[index]`: the
   * reply was counted, but its index lies outside the vectors.
   */
  method ReadMessageStep(c: Crypto, validators: Validators, ns: Namespace, msgId: B256, slots: seq<Slot<ReadMessageResponse>>, i: nat, t: ReadMessageTally)
    returns (t': ReadMessageTally, outOfRange: bool)
    requires FromConnectedValidators(validators, slots)
    requires i < |slots| && slots[i].Some?
    requires TallyMatches(c, validators, ns, msgId, slots[..i], t)
    ensures TallyMatches(c, validators, ns, msgId, slots[..i + 1], t')
    ensures outOfRange <==>
      && (AcceptsAvailable(c, validators, ns, msgId, slots[i].value) || AcceptsUnavailable(c, validators, slots[i].value))
      && slots[i].value.index >= |validators|
    ensures ReadIndicesBelow(c, validators, ns, msgId, slots[..i + 1])
        <==> ReadIndicesBelow(c, validators, ns, msgId, slots[..i]) && !outOfRange
  {
    var n := |validators|;
    var reply := slots[i].value;
    TallyStep(slots, AvailableVote(c, validators, ns, msgId), i);
    TallyStep(slots, UnavailableVote(c, validators), i);
    MatchingMessageStep(c, ns, msgId, slots, i);
    var availableVote := AvailableVote(c, validators, ns, msgId)(reply);
    var unavailableVote := UnavailableVote(c, validators)(reply);
    assert availableVote.Some? <==> AcceptsAvailable(c, validators, ns, msgId, reply);
    assert unavailableVote.Some? <==> AcceptsUnavailable(c, validators, reply);
    ghost var av := AvailableVotes(c, validators, ns, msgId, slots[..i]);
    ghost var un := UnavailableVotes(c, validators, slots[..i]);
    assert AvailableVotes(c, validators, ns, msgId, slots[..i + 1]) == if availableVote.Some? then av + [availableVote.value] else av;
    assert UnavailableVotes(c, validators, slots[..i + 1]) == if unavailableVote.Some? then un + [unavailableVote.value] else un;
    var available, availableTimestamps, availableSignatures, availableOut :=
      CountVote(n, av, t.available, t.availableTimestamps, t.availableSignatures, availableVote);
    var unavailable, unavailableTimestamps, unavailableSignatures, unavailableOut :=
      CountVote(n, un, t.unavailable, t.unavailableTimestamps, t.unavailableSignatures, unavailableVote);
    var message :=
      if reply.body.Some? && reply.body.value.Available? && c.messageId(ns, reply.body.value.record.message) == msgId
      then reply.body.value.record.message
      else t.message;
    t' := ReadMessageTally(available, unavailable, availableTimestamps, unavailableTimestamps,
                           availableSignatures, unavailableSignatures, message);
    outOfRange := availableOut || unavailableOut;
  }

  /**
   * Counting one reply's vote, if any, into a tally's count, timestamp
   * vector and signature list: `count += 1`, `timestamps[index] = timestamp`,
   * `signatures.push(signature)`. `outOfRange` is the panic of the indexing.
   */
  method CountVote(n: nat, ghost vs: seq<Vote>, count: nat, timestamps: seq<Timestamp>, signatures: seq<Signature>, vote: Option<Vote>)
    returns (count': nat, timestamps': seq<Timestamp>, signatures': seq<Signature>, outOfRange: bool)
    requires count == |vs| && timestamps == TimestampVector(n, vs) && signatures == Signatures(vs)
    ensures var vs' := if vote.Some? then vs + [vote.value] else vs;
      && count' == |vs'|
      && timestamps' == TimestampVector(n, vs')
      && signatures' == Signatures(vs')
      && (IndicesBelow(n, vs') <==> IndicesBelow(n, vs) && !outOfRange)
    ensures outOfRange <==> vote.Some? && vote.value.index >= n
  {
    count', timestamps', signatures', outOfRange := count, timestamps, signatures, false;
    if vote.Some? {
      var v := vote.value;
      TimestampVectorStep(n, vs, v);
      IndicesBelowAppend(n, vs, v);
      count' := count + 1;
      signatures' := signatures + [v.signature];
      if v.index < |timestamps| {
        timestamps' := timestamps[v.index := v.timestamp];
      } else {
        outOfRange := true;
      }
    }
  }

  /** Before any reply the tallies are empty and the vectors hold `Timestamp::default()`. */
  lemma InitialTallyMatches(c: Crypto, validators: Validators, ns: Namespace, msgId: B256, slots: seq<Slot<ReadMessageResponse>>)
    ensures var n := |validators|;
      TallyMatches(c, validators, ns, msgId, slots[..0], ReadMessageTally(0, 0, seq(n, _ => 0), seq(n, _ => 0), [], [], Message([])))
  {
    assert slots[..0] == [];
  }

  /**
   * The loop of `Client::read_message`: reads replies until the stopping
   * rule holds, the live replies run out, or a counted vote's index lies
   * outside the timestamp vectors (`outOfRange`, where the source panics).
   */
  method TallyReadMessage(c: Crypto, validators: Validators, ns: Namespace, msgId: B256, slots: seq<Slot<ReadMessageResponse>>)
    returns (consumed: nat, t: ReadMessageTally, outOfRange: bool)
    requires FromConnectedValidators(validators, slots)
    ensures consumed <= LiveLength(slots)
    ensures outOfRange <==> !ReadIndicesBelow(c, validators, ns, msgId, slots[..consumed])
    ensures outOfRange ==> 0 < consumed && ReadIndicesBelow(c, validators, ns, msgId, slots[..consumed - 1])
    ensures !outOfRange ==> consumed == LiveLength(slots) || ReadStopsAt(c, validators, ns, msgId, slots, consumed)
    ensures ReadNotStoppedBefore(c, validators, ns, msgId, slots, consumed)
    ensures TallyMatches(c, validators, ns, msgId, slots[..consumed], t)
  {
    var n := |validators|;
    t := ReadMessageTally(0, 0, seq(n, _ => 0), seq(n, _ => 0), [], [], Message([]));
    InitialTallyMatches(c, validators, ns, msgId, slots);
    var i := 0;
    var stop := false;
    outOfRange := false;
    while i < |slots| && slots[i].Some? && !stop && !outOfRange
      invariant i <= LiveLength(slots)
      invariant TallyMatches(c, validators, ns, msgId, slots[..i], t)
      invariant ReadNotStoppedBefore(c, validators, ns, msgId, slots, i)
      invariant outOfRange <==> !ReadIndicesBelow(c, validators, ns, msgId, slots[..i])
      invariant outOfRange ==> 0 < i && ReadIndicesBelow(c, validators, ns, msgId, slots[..i - 1])
      invariant stop ==> ReadStops(n, t.available, t.unavailable)
      invariant !stop && !outOfRange && i > 0 ==> !ReadStops(n, t.available, t.unavailable)
      decreases |slots| - i
    {
      LiveStep(slots, i);
      EmptyTallyHasNoQuorum(validators, slots);
      ReadNotStoppedBeforeStep(c, validators, ns, msgId, slots, i);
      t, outOfRange := ReadMessageStep(c, validators, ns, msgId, slots, i, t);
      i := i + 1;
      if !outOfRange && ReadStops(n, t.available, t.unavailable) {
        stop := true;
      }
    }
    consumed := i;
  }

  datatype ReadMessageOutcome =
    | CertifiedAvailable(record: CertifiedRecord)
    | CertifiedUnavailable(certificate: CertifiedUnavailableMessage)
    | ReadNoQuorum(available: nat, unavailable: nat)
    | ReadMessagePanicked(reason: Panic)

  /**
   * `Client::read_message`: a quorum of available votes certifies the
   * message, otherwise a quorum of unavailable votes certifies its absence,
   * otherwise `NoQuorum` reports both counts. A counted vote from an index
   * outside the timestamp vectors panics first.
   */
  method ReadMessage(c: Crypto, validators: Validators, ns: Namespace, msgId: B256, slots: seq<Slot<ReadMessageResponse>>)
    returns (out: ReadMessageOutcome, consumed: nat)
    requires FromConnectedValidators(validators, slots)
    ensures consumed <= LiveLength(slots)
    ensures ReadNotStoppedBefore(c, validators, ns, msgId, slots, consumed)
    ensures out == ReadMessagePanicked(IndexOutOfRange) <==> !ReadIndicesBelow(c, validators, ns, msgId, slots[..consumed])
    ensures out == ReadMessagePanicked(IndexOutOfRange) ==>
      0 < consumed && ReadIndicesBelow(c, validators, ns, msgId, slots[..consumed - 1])
    ensures ReadIndicesBelow(c, validators, ns, msgId, slots[..LiveLength(slots)]) ==> out != ReadMessagePanicked(IndexOutOfRange)
    ensures out != ReadMessagePanicked(IndexOutOfRange) ==>
      consumed == LiveLength(slots) || ReadStopsAt(c, validators, ns, msgId, slots, consumed)
    ensures
      var n := |validators|;
      var av := AvailableVotes(c, validators, ns, msgId, slots[..consumed]);
      var un := UnavailableVotes(c, validators, slots[..consumed]);
      var inRange := ReadIndicesBelow(c, validators, ns, msgId, slots[..consumed]);
      && (out == ReadMessagePanicked(MissingSignature) <==> n == 0)
      && (out.CertifiedAvailable? <==> inRange && n > 0 && HasReachedQuorum(n, |av|) && MedianFits(TimestampVector(n, av)))
      && (out.CertifiedUnavailable? <==>
            inRange && !HasReachedQuorum(n, |av|) && HasReachedQuorum(n, |un|) && MedianFits(TimestampVector(n, un)))
      && (out.ReadNoQuorum? <==> inRange && !HasReachedQuorum(n, |av|) && !HasReachedQuorum(n, |un|))
      && (out.ReadNoQuorum? ==> out.available == |av| && out.unavailable == |un|)
      && (out != ReadMessagePanicked(IndexOutOfRange) ==>
            (out.ReadNoQuorum? <==>
              && !HasReachedQuorum(n, |AvailableVotes(c, validators, ns, msgId, slots[..LiveLength(slots)])|)
              && !HasReachedQuorum(n, |UnavailableVotes(c, validators, slots[..LiveLength(slots)])|)))
      && (out.CertifiedAvailable? ==>
            && out.record.message.Some?
            && c.messageId(ns, out.record.message.value) == msgId
            && out.record.message == MatchingMessage(c, ns, msgId, slots[..consumed])
            && out.record.quorumSignature == Signatures(av)
            && Ascending(out.record.timestamps)
            && multiset(out.record.timestamps) == multiset(TimestampVector(n, av)))
      && (out.CertifiedUnavailable? ==>
            && out.certificate.msgId == msgId
            && out.certificate.quorumSignature == Signatures(un)
            && Ascending(out.certificate.timestamps)
            && multiset(out.certificate.timestamps) == multiset(TimestampVector(n, un)))
  {
    var n := |validators|;
    var t, outOfRange;
    consumed, t, outOfRange := TallyReadMessage(c, validators, ns, msgId, slots);
    if outOfRange {
      ReadPanicWithinLive(c, validators, ns, msgId, slots, consumed);
      out := ReadMessagePanicked(IndexOutOfRange);
      return;
    }
    ReadTalliesBounded(c, validators, ns, msgId, slots, consumed);
    ReadMessageSettled(c, validators, ns, msgId, slots, consumed);
    if |AvailableVotes(c, validators, ns, msgId, slots[..consumed])| > 0 {
      CountedAvailableSuppliesMessage(c, validators, ns, msgId, slots[..consumed]);
    }
    out := ReadMessageVerdict(c, n, ns, msgId, AvailableVotes(c, validators, ns, msgId, slots[..consumed]),
                              UnavailableVotes(c, validators, slots[..consumed]), t);
  }

  /**
   * The end of `read_message` once the loop has stopped with every counted
   * index in range: a quorum of available votes certifies the message (its
   * aggregate must hold a signature and its median must fit), otherwise a
   * quorum of unavailable votes certifies its absence, otherwise `NoQuorum`.
   */
  method ReadMessageVerdict(c: Crypto, n: nat, ns: Namespace, msgId: B256, ghost av: seq<Vote>, ghost un: seq<Vote>, t: ReadMessageTally)
    returns (out: ReadMessageOutcome)
    requires |av| + |un| <= n
    requires t.available == |av| && t.unavailable == |un|
    requires t.availableTimestamps == TimestampVector(n, av) && t.unavailableTimestamps == TimestampVector(n, un)
    requires t.availableSignatures == Signatures(av) && t.unavailableSignatures == Signatures(un)
    requires |av| > 0 ==> c.messageId(ns, t.message) == msgId
    ensures out != ReadMessagePanicked(IndexOutOfRange)
    ensures out == ReadMessagePanicked(MissingSignature) <==> n == 0
    ensures out.CertifiedAvailable? <==> n > 0 && HasReachedQuorum(n, |av|) && MedianFits(TimestampVector(n, av))
    ensures out.CertifiedUnavailable? <==>
      !HasReachedQuorum(n, |av|) && HasReachedQuorum(n, |un|) && MedianFits(TimestampVector(n, un))
    ensures out.ReadNoQuorum? <==> !HasReachedQuorum(n, |av|) && !HasReachedQuorum(n, |un|)
    ensures out.ReadNoQuorum? ==> out.available == |av| && out.unavailable == |un|
    ensures out.CertifiedAvailable? ==>
      && out.record.message == Some(t.message)
      && c.messageId(ns, t.message) == msgId
      && out.record.quorumSignature == Signatures(av)
      && Ascending(out.record.timestamps)
      && multiset(out.record.timestamps) == multiset(TimestampVector(n, av))
    ensures out.CertifiedUnavailable? ==>
      && out.certificate.msgId == msgId
      && out.certificate.quorumSignature == Signatures(un)
      && Ascending(out.certificate.timestamps)
      && multiset(out.certificate.timestamps) == multiset(TimestampVector(n, un))
  {
    if HasReachedQuorum(n, t.available) {
      if t.availableSignatures == [] {
        out := ReadMessagePanicked(MissingSignature);
        return;
      }
      if !MedianFits(t.availableTimestamps) {
        out := ReadMessagePanicked(TimestampOverflow);
        return;
      }
      var certified := CertifyRecord(CertifiedRecord(t.availableTimestamps, Some(t.message), t.availableSignatures));
      out := CertifiedAvailable(certified.1);
    } else if HasReachedQuorum(n, t.unavailable) {
      if !MedianFits(t.unavailableTimestamps) {
        out := ReadMessagePanicked(TimestampOverflow);
        return;
      }
      var timestamps := SortTimestamps(t.unavailableTimestamps);
      out := CertifiedUnavailable(CertifiedUnavailableMessage(timestamps, msgId, t.unavailableSignatures));
    } else {
      out := ReadNoQuorum(t.available, t.unavailable);
    }
  }

  /** If every vote over the live replies is in range, so is every vote over a prefix of them. */
  lemma ReadPanicWithinLive(c: Crypto, validators: Validators, ns: Namespace, msgId: B256, slots: seq<Slot<ReadMessageResponse>>, consumed: nat)
    requires consumed <= LiveLength(slots)
    ensures ReadIndicesBelow(c, validators, ns, msgId, slots[..LiveLength(slots)]) ==>
      ReadIndicesBelow(c, validators, ns, msgId, slots[..consumed])
  {
    var n, live := |validators|, LiveLength(slots);
    TallyGrows(slots, AvailableVote(c, validators, ns, msgId), consumed, live);
    TallyGrows(slots, UnavailableVote(c, validators), consumed, live);
    if ReadIndicesBelow(c, validators, ns, msgId, slots[..live]) {
      IndicesBelowPrefix(n, AvailableVotes(c, validators, ns, msgId, slots[..consumed]), AvailableVotes(c, validators, ns, msgId, slots[..live]));
      IndicesBelowPrefix(n, UnavailableVotes(c, validators, slots[..consumed]), UnavailableVotes(c, validators, slots[..live]));
    }
  }

  // ---------------------------------------------------------------------------
  // read
  // ---------------------------------------------------------------------------

  /** A log that deserialised, with the index of the validator that sent it. */
  datatype Fetch = Fetch(index: nat, log: Log)

  /** The logs handed to verification tasks: the deserialised replies, in arrival order. */
  function Fetched(slots: seq<Slot<Log>>): (fs: seq<Fetch>)
    ensures |fs| <= |slots|
    ensures forall k | 0 <= k < |fs| ::
      exists i | 0 <= i < |slots| :: slots[i] == Some(Reply(fs[k].index, Some(fs[k].log)))
  {
    if |slots| == 0 then []
    else
      var init := Fetched(slots[..|slots| - 1]);
      assert forall i | 0 <= i < |slots| - 1 :: slots[..|slots| - 1][i] == slots[i];
      match slots[|slots| - 1]
      case Some(Reply(index, Some(log))) => init + [Fetch(index, log)]
      case _ => init
  }

  /** A record's signature verifies under `pubkey` over its digest. */
  predicate RecordVerifies(c: Crypto, pubkey: PublicKey, ns: Namespace, r: Record) {
    c.verify(r.signature, pubkey, RecordDigest(c, r, ns))
  }

  /** Every record of the log verifies under `pubkey`. */
  predicate LogVerifies(c: Crypto, pubkey: PublicKey, ns: Namespace, log: Log) {
    forall k | 0 <= k < |log.records| :: RecordVerifies(c, pubkey, ns, log.records[k])
  }

  /** A verification task of `read`: stops at the first record whose signature fails. */
  method VerifyLog(c: Crypto, pubkey: PublicKey, ns: Namespace, log: Log) returns (ok: bool)
    ensures ok <==> LogVerifies(c, pubkey, ns, log)
  {
    var k := 0;
    while k < |log.records|
      invariant k <= |log.records|
      invariant forall j | 0 <= j < k :: RecordVerifies(c, pubkey, ns, log.records[j])
    {
      if !c.verify(log.records[k].signature, pubkey, RecordDigest(c, log.records[k], ns)) {
        return false;
      }
      k := k + 1;
    }
    return true;
  }

  /** The fetched log from validator `f.index` verifies under that validator's key. */
  predicate FetchVerifies(c: Crypto, validators: Validators, ns: Namespace, f: Fetch) {
    f.index in validators && LogVerifies(c, validators[f.index], ns, f.log)
  }

  /** `0, 1, .., m - 1`. */
  function Range(m: nat): (r: seq<nat>)
    ensures |r| == m
    ensures forall k | 0 <= k < m :: r[k] == k
  {
    if m == 0 then [] else Range(m - 1) + [m - 1]
  }

  /** `order` lists each of the `m` verification tasks exactly once: the order they complete in. */
  predicate IsCompletionOrder(order: seq<nat>, m: nat) {
    multiset(order) == multiset(Range(m))
  }

  /** The records of the fetched logs taken in `order`, concatenated. */
  function ConcatIn(fs: seq<Fetch>, order: seq<nat>): (r: seq<Record>)
    requires forall k | 0 <= k < |order| :: order[k] < |fs|
  {
    if |order| == 0 then [] else fs[order[0]].log.records + ConcatIn(fs, order[1..])
  }

  /**
   * The records the merge loop of `read` collects: logs in completion order,
   * up to the first log that fails verification, which ends the loop.
   */
  function MergedUntilRejected(c: Crypto, validators: Validators, ns: Namespace, fs: seq<Fetch>, order: seq<nat>): (r: seq<Record>)
    requires forall k | 0 <= k < |order| :: order[k] < |fs|
  {
    if |order| == 0 || !FetchVerifies(c, validators, ns, fs[order[0]]) then []
    else fs[order[0]].log.records + MergedUntilRejected(c, validators, ns, fs, order[1..])
  }

  function RecordTime(r: Record): int {
    r.timestamp
  }

  /**
   * `Client::read`: fetches a log from every validator that answers before
   * the first failed request, verifies each log in a task of its own, merges
   * the logs as the tasks complete, and sorts the result by timestamp.
   */
  method Read(c: Crypto, validators: Validators, ns: Namespace, slots: seq<Slot<Log>>, completion: seq<nat>)
    returns (log: Log)
    requires FromConnectedValidators(validators, slots)
    requires IsCompletionOrder(completion, |Fetched(slots[..LiveLength(slots)])|)
    ensures var fs := Fetched(slots[..LiveLength(slots)]);
      && (forall k | 0 <= k < |completion| :: completion[k] < |fs|)
      && SortedBy(log.records, RecordTime)
      && multiset(log.records) == multiset(MergedUntilRejected(c, validators, ns, fs, completion))
      && (forall r | r in log.records :: exists f | f in fs :: FetchVerifies(c, validators, ns, f) && r in f.log.records)
      && ((forall f | f in fs :: FetchVerifies(c, validators, ns, f)) ==>
            multiset(log.records) == multiset(ConcatIn(fs, Range(|fs|))))
  {
    var fs := FetchLogs(slots);
    CompletionInRange(completion, |fs|);
    assert FromConnectedValidators(validators, slots[..LiveLength(slots)]);
    FetchedFromValidators(validators, slots[..LiveLength(slots)]);
    var records := MergeLogs(c, validators, ns, fs, completion);
    log := Log(SortBy(records, RecordTime));
    MergedRecordsVerify(c, validators, ns, fs, completion);
    ReadProvenance(c, validators, ns, fs, records, log.records);
    if forall f | f in fs :: FetchVerifies(c, validators, ns, f) {
      AllVerifiedMergesAll(c, validators, ns, fs, completion);
      ConcatPermutation(fs, completion, Range(|fs|));
    }
  }

  /** Reordering the merged records keeps every record's verified source log. */
  lemma ReadProvenance(c: Crypto, validators: Validators, ns: Namespace, fs: seq<Fetch>, records: seq<Record>, sorted: seq<Record>)
    requires multiset(sorted) == multiset(records)
    requires forall r | r in records :: exists f | f in fs :: FetchVerifies(c, validators, ns, f) && r in f.log.records
    ensures forall r | r in sorted :: exists f | f in fs :: FetchVerifies(c, validators, ns, f) && r in f.log.records
  {
    forall r | r in sorted
      ensures r in records
    {
      assert r in multiset(sorted);
    }
  }

  /**
   * The merge loop of `read`: takes the verified logs as their tasks
   * complete and stops at the first task that rejects its log.
   */
  method MergeLogs(c: Crypto, validators: Validators, ns: Namespace, fs: seq<Fetch>, completion: seq<nat>)
    returns (records: seq<Record>)
    requires forall k | 0 <= k < |completion| :: completion[k] < |fs|
    requires forall f | f in fs :: f.index in validators
    ensures records == MergedUntilRejected(c, validators, ns, fs, completion)
  {
    var merged: Option<Log> := None;
    var i := 0;
    var rejected := false;
    while i < |completion| && !rejected
      invariant i <= |completion|
      invariant merged.GetOr(Log([])).records == ConcatIn(fs, completion[..i])
      invariant forall j | 0 <= j < i :: FetchVerifies(c, validators, ns, fs[completion[j]])
      invariant rejected ==> i < |completion| && !FetchVerifies(c, validators, ns, fs[completion[i]])
      decreases |completion| - i, if rejected then 0 else 1
    {
      var task := fs[completion[i]];
      assert task in fs;
      var ok;
      merged, ok := MergeOne(c, validators, ns, task, merged);
      if !ok {
        rejected := true;
      } else {
        ConcatStep(fs, completion, i);
        i := i + 1;
      }
    }
    records := merged.GetOr(Log([])).records;
    MergedAtStop(c, validators, ns, fs, completion, i);
  }

  /** Taking the next log extends the concatenation of the logs taken so far. */
  lemma ConcatStep(fs: seq<Fetch>, order: seq<nat>, i: nat)
    requires forall k | 0 <= k < |order| :: order[k] < |fs|
    requires i < |order|
    ensures ConcatIn(fs, order[..i + 1]) == ConcatIn(fs, order[..i]) + fs[order[i]].log.records
  {
    assert order[..i + 1] == order[..i] + [order[i]];
    ConcatSplit(fs, order[..i], [order[i]]);
  }

  /**
   * Where the merge stops, after `p` verified logs and either at the end or
   * at a rejected log, it has collected exactly those `p` logs.
   */
  lemma {:induction false} MergedAtStop(c: Crypto, validators: Validators, ns: Namespace, fs: seq<Fetch>, order: seq<nat>, p: nat)
    requires forall k | 0 <= k < |order| :: order[k] < |fs|
    requires p <= |order|
    requires forall j | 0 <= j < p :: FetchVerifies(c, validators, ns, fs[order[j]])
    requires p == |order| || !FetchVerifies(c, validators, ns, fs[order[p]])
    ensures MergedUntilRejected(c, validators, ns, fs, order) == ConcatIn(fs, order[..p])
  {
    if p > 0 {
      MergedAtStop(c, validators, ns, fs, order[1..], p - 1);
      assert order[..p][1..] == order[1..][..p - 1];
    }
  }

  /**
   * One completed verification task: a verified log extends the merged log,
   * or becomes it when it is the first; a rejected one ends the merge.
   */
  method MergeOne(c: Crypto, validators: Validators, ns: Namespace, task: Fetch, merged: Option<Log>)
    returns (merged': Option<Log>, ok: bool)
    requires task.index in validators
    ensures ok <==> FetchVerifies(c, validators, ns, task)
    ensures ok ==> merged'.GetOr(Log([])).records == merged.GetOr(Log([])).records + task.log.records
    ensures !ok ==> merged' == merged
  {
    ok := VerifyLog(c, validators[task.index], ns, task.log);
    merged' := merged;
    if ok {
      match merged {
        case Some(first) => merged' := Some(Extend(first, task.log));
        case None => merged' := Some(task.log);
      }
    }
  }

  /** The fetch loop of `read`: reads the live replies and keeps the ones that deserialise. */
  method FetchLogs(slots: seq<Slot<Log>>) returns (fs: seq<Fetch>)
    ensures fs == Fetched(slots[..LiveLength(slots)])
  {
    fs := [];
    var i := 0;
    while i < |slots| && slots[i].Some?
      invariant i <= LiveLength(slots)
      invariant fs == Fetched(slots[..i])
    {
      LiveStep(slots, i);
      assert slots[..i + 1][..i] == slots[..i];
      match slots[i].value.body {
        case Some(l) => fs := fs + [Fetch(slots[i].value.index, l)];
        case None =>
      }
      i := i + 1;
    }
  }

  /** Every fetched log comes from a known validator. */
  lemma FetchedFromValidators(validators: Validators, slots: seq<Slot<Log>>)
    requires FromConnectedValidators(validators, slots)
    ensures forall f | f in Fetched(slots) :: f.index in validators
  {
    var fs := Fetched(slots);
    forall f | f in fs
      ensures f.index in validators
    {
      var k :| 0 <= k < |fs| && fs[k] == f;
      var i :| 0 <= i < |slots| && slots[i] == Some(Reply(fs[k].index, Some(fs[k].log)));
    }
  }

  /** A completion order names only tasks that exist. */
  lemma CompletionInRange(order: seq<nat>, m: nat)
    requires IsCompletionOrder(order, m)
    ensures forall k | 0 <= k < |order| :: order[k] < m
  {
    forall k | 0 <= k < |order|
      ensures order[k] < m
    {
      assert order[k] in multiset(order);
      assert order[k] in multiset(Range(m));
      var j :| 0 <= j < m && Range(m)[j] == order[k];
    }
  }

  lemma {:induction false} ConcatSplit(fs: seq<Fetch>, a: seq<nat>, b: seq<nat>)
    requires forall k | 0 <= k < |a| :: a[k] < |fs|
    requires forall k | 0 <= k < |b| :: b[k] < |fs|
    ensures ConcatIn(fs, a + b) == ConcatIn(fs, a) + ConcatIn(fs, b)
  {
    if |a| == 0 {
      assert a + b == b;
    } else {
      assert (a + b)[1..] == a[1..] + b;
      ConcatSplit(fs, a[1..], b);
    }
  }

  /** `s` without its element at `p`. */
  function RemoveAt(s: seq<nat>, p: nat): (r: seq<nat>)
    requires p < |s|
    ensures |r| == |s| - 1
    ensures forall k | 0 <= k < |r| :: r[k] == if k < p then s[k] else s[k + 1]
    ensures multiset(r) == multiset(s) - multiset{s[p]}
  {
    assert s == s[..p] + [s[p]] + s[p + 1..];
    s[..p] + s[p + 1..]
  }

  /** Taking one log out of the order removes exactly its records. */
  lemma ConcatRemove(fs: seq<Fetch>, b: seq<nat>, p: nat)
    requires forall k | 0 <= k < |b| :: b[k] < |fs|
    requires p < |b|
    ensures forall k | 0 <= k < |RemoveAt(b, p)| :: RemoveAt(b, p)[k] < |fs|
    ensures multiset(ConcatIn(fs, b)) == multiset(fs[b[p]].log.records) + multiset(ConcatIn(fs, RemoveAt(b, p)))
  {
    var x := b[p];
    assert b == b[..p] + ([x] + b[p + 1..]);
    assert ([x] + b[p + 1..])[1..] == b[p + 1..];
    ConcatSplit(fs, b[..p], [x] + b[p + 1..]);
    ConcatSplit(fs, b[..p], b[p + 1..]);
  }

  /** The records gathered depend only on which logs are taken, not on their order. */
  lemma {:induction false} ConcatPermutation(fs: seq<Fetch>, a: seq<nat>, b: seq<nat>)
    requires forall k | 0 <= k < |a| :: a[k] < |fs|
    requires forall k | 0 <= k < |b| :: b[k] < |fs|
    requires multiset(a) == multiset(b)
    ensures multiset(ConcatIn(fs, a)) == multiset(ConcatIn(fs, b))
  {
    if |a| == 0 {
      assert |b| == |multiset(b)| == 0;
    } else {
      var x := a[0];
      assert x in multiset(b);
      var p :| 0 <= p < |b| && b[p] == x;
      var rest := RemoveAt(b, p);
      ConcatRemove(fs, b, p);
      assert a == [x] + a[1..];
      assert multiset(a[1..]) == multiset(a) - multiset{x};
      ConcatPermutation(fs, a[1..], rest);
    }
  }

  /**
   * The merge takes the logs in completion order up to the first rejected
   * one: those before it all verify, and nothing from it or after it is kept.
   */
  lemma MergedIsVerifiedPrefix(c: Crypto, validators: Validators, ns: Namespace, fs: seq<Fetch>, order: seq<nat>)
    requires forall k | 0 <= k < |order| :: order[k] < |fs|
    ensures exists p | 0 <= p <= |order| ::
      && (forall k | 0 <= k < p :: FetchVerifies(c, validators, ns, fs[order[k]]))
      && (p < |order| ==> !FetchVerifies(c, validators, ns, fs[order[p]]))
      && MergedUntilRejected(c, validators, ns, fs, order) == ConcatIn(fs, order[..p])
  {
    var p := FirstRejected(c, validators, ns, fs, order);
    MergedAtStop(c, validators, ns, fs, order, p);
  }

  /** The position in `order` of the first log that fails verification, or `|order|` when all verify. */
  function FirstRejected(c: Crypto, validators: Validators, ns: Namespace, fs: seq<Fetch>, order: seq<nat>): (p: nat)
    requires forall k | 0 <= k < |order| :: order[k] < |fs|
    ensures p <= |order|
    ensures forall j | 0 <= j < p :: FetchVerifies(c, validators, ns, fs[order[j]])
    ensures p < |order| ==> !FetchVerifies(c, validators, ns, fs[order[p]])
  {
    if |order| == 0 || !FetchVerifies(c, validators, ns, fs[order[0]]) then 0
    else
      var p := 1 + FirstRejected(c, validators, ns, fs, order[1..]);
      assert forall j | 1 <= j < |order| :: order[j] == order[1..][j - 1];
      p
  }

  /** Every merged record belongs to a fetched log that verified in full. */
  lemma {:induction false} MergedRecordsVerify(c: Crypto, validators: Validators, ns: Namespace, fs: seq<Fetch>, order: seq<nat>)
    requires forall k | 0 <= k < |order| :: order[k] < |fs|
    ensures forall r | r in MergedUntilRejected(c, validators, ns, fs, order) ::
      exists f | f in fs :: FetchVerifies(c, validators, ns, f) && r in f.log.records
  {
    if |order| > 0 && FetchVerifies(c, validators, ns, fs[order[0]]) {
      MergedRecordsVerify(c, validators, ns, fs, order[1..]);
      var f := fs[order[0]];
      assert f in fs;
    }
  }

  /** When every fetched log verifies, the merge keeps them all. */
  lemma {:induction false} AllVerifiedMergesAll(c: Crypto, validators: Validators, ns: Namespace, fs: seq<Fetch>, order: seq<nat>)
    requires forall k | 0 <= k < |order| :: order[k] < |fs|
    requires forall f | f in fs :: FetchVerifies(c, validators, ns, f)
    ensures MergedUntilRejected(c, validators, ns, fs, order) == ConcatIn(fs, order)
  {
    if |order| > 0 {
      assert fs[order[0]] in fs;
      AllVerifiedMergesAll(c, validators, ns, fs, order[1..]);
    }
  }
}
