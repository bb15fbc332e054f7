/** The copy-bonus claim loop: ask for a batch, sign it, order it, until there is nothing new. */
module BonusClaim {
  import opened Options

  datatype Item = Item(txCode: string, poolAddress: string)

  datatype Batch = Batch(bonusUsd: real, orderCode: string, items: seq<Item>)

  /** What became of a batch that passed the duplicate check. */
  datatype Order = Ordered(signatures: seq<string>) | AllSignaturesFailed | OrderFailed(error: string)

  /** Everything the server answers in one round. */
  datatype Reply =
    | EpochUnavailable(error: string)
    | NotClaimable(message: string)
    | EncodeFailed(error: string)
    | Offer(batch: Batch, order: Order)

  datatype Entry = Entry(totalPools: nat, totalBonusUsd: real, txSignatures: seq<string>, error: Option<string>)

  datatype Claim = Claim(
    entry: Entry,
    seenOrderCodes: set<string>,
    seenRewardKeys: set<string>,
    done: bool,
    completed: seq<Batch>) // the batches whose order-v2 call succeeded

  const START := Claim(Entry(0, 0.0, [], None), {}, {}, false, [])

  function KeyOf(item: Item): string {
    if item.txCode != "" then item.txCode else item.poolAddress
  }

  function Keys(batch: Batch): set<string> {
    set i | 0 <= i < |batch.items| && KeyOf(batch.items[i]) != "" :: KeyOf(batch.items[i])
  }

  // ---------- one round ----------

  function Stop(c: Claim, message: string): Claim {
    c.(done := true, entry := StopOrError(c.entry, message))
  }

  function Fail(c: Claim, error: string): Claim {
    c.(done := true, entry := c.entry.(error := Some(error)))
  }

  predicate IsDuplicate(c: Claim, b: Batch) {
    (b.orderCode != "" && b.orderCode in c.seenOrderCodes) || !(Keys(b) !! c.seenRewardKeys)
  }

  function Complete(c: Claim, b: Batch, signatures: seq<string>): Claim {
    Claim(
      Entry(c.entry.totalPools + |b.items|, c.entry.totalBonusUsd + b.bonusUsd, c.entry.txSignatures + signatures, c.entry.error),
      if b.orderCode != "" then c.seenOrderCodes + {b.orderCode} else c.seenOrderCodes,
      c.seenRewardKeys + Keys(b), false, c.completed + [b])
  }

  function Round(c: Claim, r: Reply): Claim {
    if c.done then c else
    match r
    case EpochUnavailable(e) => Stop(c, "epoch-bonus unavailable: " + e)
    case NotClaimable(message) => Stop(c, message)
    case EncodeFailed(e) => Fail(c, e)
    case Offer(b, order) =>
      if b.items == [] then Stop(c, "no rewards available")
      else if IsDuplicate(c, b) then c.(done := true)
      else
        match order
        case AllSignaturesFailed => Fail(c, "all signatures failed")
        case OrderFailed(e) => Fail(c, e)
        case Ordered(signatures) => Complete(c, b, signatures)
  }

  /** The claim after the server's first answers. */
  function Rounds(replies: seq<Reply>): Claim
    decreases |replies|
  {
    if replies == [] then START else Round(Rounds(replies[..|replies| - 1]), replies[|replies| - 1])
  }

  /** The loop with its two sets and its running totals. */
  method ClaimRounds(replies: seq<Reply>) returns (entry: Entry, stopped: bool)
    ensures entry == Rounds(replies).entry && stopped == Rounds(replies).done
  {
    entry := START.entry;
    var seenOrderCodes: set<string>, seenRewardKeys: set<string> := {}, {};
    ghost var completed: seq<Batch> := [];
    for round := 0 to |replies|
      invariant Rounds(replies[..round]) == Claim(entry, seenOrderCodes, seenRewardKeys, false, completed)
    {
      assert replies[..round + 1][..round] == replies[..round];
      match replies[round] {
        case EpochUnavailable(e) => entry := StopOrError(entry, "epoch-bonus unavailable: " + e);
        case NotClaimable(message) => entry := StopOrError(entry, message);
        case EncodeFailed(e) => entry := entry.(error := Some(e));
        case Offer(batch, order) =>
          var keys := CollectKeys(batch);
          if batch.items == [] {
            entry := StopOrError(entry, "no rewards available");
          } else if (batch.orderCode != "" && batch.orderCode in seenOrderCodes) || !(keys !! seenRewardKeys) {
            // duplicate batch: stop before ordering it
          } else if order.AllSignaturesFailed? {
            entry := entry.(error := Some("all signatures failed"));
          } else if order.OrderFailed? {
            entry := entry.(error := Some(order.error));
          } else {
            entry := entry.(totalPools := entry.totalPools + |batch.items|,
                            totalBonusUsd := entry.totalBonusUsd + batch.bonusUsd,
                            txSignatures := entry.txSignatures + order.signatures);
            if batch.orderCode != "" { seenOrderCodes := seenOrderCodes + {batch.orderCode}; }
            seenRewardKeys := seenRewardKeys + keys;
            completed := completed + [batch];
            continue;
          }
      }
      DoneStays(replies, round + 1);
      return entry, true;
    }
    assert replies[..|replies|] == replies;
    stopped := false;
  }

  /** A stop is an error only if nothing was claimed before it. */
  function StopOrError(entry: Entry, message: string): Entry {
    if entry.totalPools > 0 then entry else entry.(error := Some(message))
  }

  method CollectKeys(batch: Batch) returns (keys: set<string>)
    ensures keys == Keys(batch)
  {
    keys := {};
    for i := 0 to |batch.items|
      invariant keys == set j | 0 <= j < i && KeyOf(batch.items[j]) != "" :: KeyOf(batch.items[j])
    {
      if KeyOf(batch.items[i]) != "" { keys := keys + {KeyOf(batch.items[i])}; }
    }
  }

  lemma {:induction false} DoneStays(replies: seq<Reply>, n: nat)
    requires n <= |replies| && Rounds(replies[..n]).done
    ensures Rounds(replies) == Rounds(replies[..n])
    decreases |replies|
  {
    if n == |replies| {
      assert replies[..n] == replies;
    } else {
      var init := replies[..|replies| - 1];
      assert init[..n] == replies[..n];
      DoneStays(init, n);
    }
  }

  // ---------- what the completed batches have in common ----------

  function AllKeys(batches: seq<Batch>): set<string>
    decreases |batches|
  {
    if batches == [] then {} else AllKeys(batches[..|batches| - 1]) + Keys(batches[|batches| - 1])
  }

  function Code(b: Batch): set<string> {
    if b.orderCode != "" then {b.orderCode} else {}
  }

  function AllCodes(batches: seq<Batch>): set<string>
    decreases |batches|
  {
    if batches == [] then {} else AllCodes(batches[..|batches| - 1]) + Code(batches[|batches| - 1])
  }

  function Pools(batches: seq<Batch>): nat
    decreases |batches|
  {
    if batches == [] then 0 else Pools(batches[..|batches| - 1]) + |batches[|batches| - 1].items|
  }

  function Usd(batches: seq<Batch>): real
    decreases |batches|
  {
    if batches == [] then 0.0 else Usd(batches[..|batches| - 1]) + batches[|batches| - 1].bonusUsd
  }

  /** Two batches share no reward key and no order code. */
  predicate Apart(a: Batch, b: Batch) {
    Keys(a) !! Keys(b) && (a.orderCode != "" ==> a.orderCode != b.orderCode)
  }

  ghost predicate Inv(c: Claim) {
    && c.entry.totalPools == Pools(c.completed) && c.entry.totalBonusUsd == Usd(c.completed)
    && c.seenRewardKeys == AllKeys(c.completed)
    && c.seenOrderCodes == AllCodes(c.completed)
    && (forall i :: 0 <= i < |c.completed| ==> c.completed[i].items != [])
    && (forall i, j :: 0 <= i < j < |c.completed| ==> Apart(c.completed[i], c.completed[j]))
  }

  /** A batch is apart from all of the others iff it shares nothing with what they have named. */
  lemma {:induction false} ApartFromAll(batches: seq<Batch>, last: Batch)
    ensures (forall i :: 0 <= i < |batches| ==> Apart(batches[i], last)) <==>
      AllKeys(batches) !! Keys(last) && AllCodes(batches) !! Code(last)
    decreases |batches|
  {
    if batches != [] {
      var init, b := batches[..|batches| - 1], batches[|batches| - 1];
      ApartFromAll(init, last);
      assert Apart(b, last) <==> Keys(b) !! Keys(last) && Code(b) !! Code(last);
      assert forall i :: 0 <= i < |init| ==> init[i] == batches[i];
    }
  }

  lemma CompleteKeepsInv(c: Claim, b: Batch, signatures: seq<string>)
    requires Inv(c) && !IsDuplicate(c, b) && b.items != []
    ensures Inv(Complete(c, b, signatures))
  {
    var d := Complete(c, b, signatures);
    assert d.completed[..|d.completed| - 1] == c.completed;
    ApartFromAll(c.completed, b);
    forall i, j | 0 <= i < j < |d.completed| ensures Apart(d.completed[i], d.completed[j]) {
      assert d.completed[i] == c.completed[i];
      if j < |c.completed| {
        assert d.completed[j] == c.completed[j];
      }
    }
  }

  lemma {:induction false} RoundsKeepInv(replies: seq<Reply>)
    ensures Inv(Rounds(replies))
    decreases |replies|
  {
    if replies != [] {
      var c, r := Rounds(replies[..|replies| - 1]), replies[|replies| - 1];
      RoundsKeepInv(replies[..|replies| - 1]);
      if !c.done && r.Offer? && r.batch.items != [] && !IsDuplicate(c, r.batch) && r.order.Ordered? {
        CompleteKeepsInv(c, r.batch, r.order.signatures);
      }
    }
  }

  /** For any server: no reward key and no non-empty order code is in two completed rounds, and
      the totals are the sums over the completed batches. */
  lemma NothingClaimedTwice(replies: seq<Reply>)
    ensures var c := Rounds(replies);
      && (forall i, j :: 0 <= i < j < |c.completed| ==> Apart(c.completed[i], c.completed[j]))
      && c.entry.totalPools == Pools(c.completed) && c.entry.totalBonusUsd == Usd(c.completed)
  {
    RoundsKeepInv(replies);
  }

  // ---------- the whole run, said of the replies ----------

  /** A string names a reward of the batch iff it is the non-empty code of an item, or the pool of one
      that has no code. */
  lemma KeysExactly(b: Batch, x: string)
    ensures x in Keys(b) <==>
      && x != ""
      && exists i :: 0 <= i < |b.items| && (b.items[i].txCode == x || (b.items[i].txCode == "" && b.items[i].poolAddress == x))
  {
    if i :| 0 <= i < |b.items| && (b.items[i].txCode == x || (b.items[i].txCode == "" && b.items[i].poolAddress == x)) {
      assert x != "" ==> KeyOf(b.items[i]) == x;
    }
  }

  /** Some earlier offer shares a reward key or a non-empty order code with the batch. */
  ghost predicate Repeats(earlier: seq<Reply>, b: Batch) {
    exists j :: 0 <= j < |earlier| && earlier[j].Offer? && !Apart(earlier[j].batch, b)
  }

  /** The reply offers rewards, nothing in it was offered before, and its order goes through. */
  ghost predicate Completes(earlier: seq<Reply>, r: Reply) {
    r.Offer? && r.batch.items != [] && r.order.Ordered? && !Repeats(earlier, r.batch)
  }

  /** Every reply completes after those before it. */
  ghost predicate AllComplete(replies: seq<Reply>)
    decreases |replies|
  {
    replies == [] ||
    (AllComplete(replies[..|replies| - 1]) && Completes(replies[..|replies| - 1], replies[|replies| - 1]))
  }

  /** Everything before reply `k` completes and reply `k`, if there is one, does not. */
  ghost predicate StopsAt(replies: seq<Reply>, k: int) {
    && 0 <= k <= |replies|
    && AllComplete(replies[..k])
    && (k < |replies| ==> !Completes(replies[..k], replies[k]))
  }

  function BatchesOf(replies: seq<Reply>): seq<Batch>
    decreases |replies|
  {
    if replies == [] then []
    else
      var last := replies[|replies| - 1];
      if last.Offer? then BatchesOf(replies[..|replies| - 1]) + [last.batch] else BatchesOf(replies[..|replies| - 1])
  }

  function SignaturesOf(replies: seq<Reply>): seq<string>
    decreases |replies|
  {
    if replies == [] then []
    else
      var last := replies[|replies| - 1];
      if last.Offer? && last.order.Ordered? then SignaturesOf(replies[..|replies| - 1]) + last.order.signatures
      else SignaturesOf(replies[..|replies| - 1])
  }

  /** The error of a run that the reply stops after `earlier` has completed. A plain stop is one only if
      nothing was claimed before; a failure always is; a repeated batch never is. */
  ghost predicate IsErrorOf(earlier: seq<Reply>, r: Reply, error: Option<string>) {
    match r
    case EpochUnavailable(e) => error == if earlier == [] then Some("epoch-bonus unavailable: " + e) else None
    case NotClaimable(message) => error == if earlier == [] then Some(message) else None
    case EncodeFailed(e) => error == Some(e)
    case Offer(b, order) =>
      if b.items == [] then error == if earlier == [] then Some("no rewards available") else None
      else if Repeats(earlier, b) then error == None
      else (order.AllSignaturesFailed? ==> error == Some("all signatures failed"))
           && (order.OrderFailed? ==> error == Some(order.error))
  }

  /** The entry holds the sums and the signatures, in order, of the completed replies. */
  ghost predicate Totals(completed: seq<Reply>, entry: Entry) {
    && entry.totalPools == Pools(BatchesOf(completed))
    && entry.totalBonusUsd == Usd(BatchesOf(completed))
    && entry.txSignatures == SignaturesOf(completed)
  }

  /** The run stops at reply `k` with this entry: the sums, signatures and error of what came before. */
  ghost predicate ClaimEnds(replies: seq<Reply>, k: int, entry: Entry, stopped: bool) {
    && StopsAt(replies, k)
    && (stopped <==> k < |replies|)
    && Totals(replies[..k], entry)
    && (if k < |replies| then IsErrorOf(replies[..k], replies[k], entry.error) else entry.error == None)
  }

  lemma {:induction false} BatchesOfCompleted(replies: seq<Reply>)
    requires forall i :: 0 <= i < |replies| ==> replies[i].Offer?
    ensures |BatchesOf(replies)| == |replies|
    ensures forall i :: 0 <= i < |replies| ==> BatchesOf(replies)[i] == replies[i].batch
    decreases |replies|
  {
    if replies != [] { BatchesOfCompleted(replies[..|replies| - 1]); }
  }

  lemma {:induction false} PoolsPositive(batches: seq<Batch>)
    requires forall i :: 0 <= i < |batches| ==> batches[i].items != []
    ensures Pools(batches) > 0 <==> batches != []
    decreases |batches|
  {
    if batches != [] { PoolsPositive(batches[..|batches| - 1]); }
  }

  lemma RepeatsIffNamed(earlier: seq<Reply>, b: Batch)
    requires forall i :: 0 <= i < |earlier| ==> earlier[i].Offer?
    ensures Repeats(earlier, b) <==>
      !(AllKeys(BatchesOf(earlier)) !! Keys(b) && AllCodes(BatchesOf(earlier)) !! Code(b))
  {
    var batches := BatchesOf(earlier);
    BatchesOfCompleted(earlier);
    ApartFromAll(batches, b);
    if Repeats(earlier, b) {
      var j :| 0 <= j < |earlier| && earlier[j].Offer? && !Apart(earlier[j].batch, b);
      assert !Apart(batches[j], b);
    } else {
      forall i | 0 <= i < |batches| ensures Apart(batches[i], b) { assert batches[i] == earlier[i].batch; }
    }
  }

  /** After rounds that all completed, the two sets recognise exactly the repeated offers. */
  lemma DuplicateIffRepeats(earlier: seq<Reply>, c: Claim, b: Batch)
    requires forall i :: 0 <= i < |earlier| ==> earlier[i].Offer?
    requires c.completed == BatchesOf(earlier)
    requires c.seenRewardKeys == AllKeys(c.completed) && c.seenOrderCodes == AllCodes(c.completed)
    ensures IsDuplicate(c, b) <==> Repeats(earlier, b)
  {
    RepeatsIffNamed(earlier, b);
  }

  /** The stop does not depend on the replies behind it. */
  lemma ClaimEndsLonger(init: seq<Reply>, last: Reply, k: int, entry: Entry)
    requires ClaimEnds(init, k, entry, true)
    ensures ClaimEnds(init + [last], k, entry, true)
  {
    assert (init + [last])[..k] == init[..k] && (init + [last])[k] == init[k];
  }

  lemma {:induction false} CompleteAreOffers(replies: seq<Reply>)
    requires AllComplete(replies)
    ensures forall i :: 0 <= i < |replies| ==> replies[i].Offer?
    decreases |replies|
  {
    if replies != [] { CompleteAreOffers(replies[..|replies| - 1]); }
  }

  lemma {:induction false} CompletePairwiseApart(replies: seq<Reply>)
    requires AllComplete(replies)
    ensures forall i, j :: 0 <= i < j < |replies| ==>
      replies[i].Offer? && replies[j].Offer? && Apart(replies[i].batch, replies[j].batch)
    decreases |replies|
  {
    if replies != [] {
      var n := |replies| - 1;
      var init := replies[..n];
      CompletePairwiseApart(init);
      CompleteAreOffers(replies);
      forall i | 0 <= i < n ensures Apart(replies[i].batch, replies[n].batch) {
        assert init[i] == replies[i] && !Repeats(init, replies[n].batch);
      }
      assert forall i :: 0 <= i < n ==> init[i] == replies[i];
    }
  }

  /** A reply that does not complete ends the run with the error that it means. */
  lemma StopSetsError(init: seq<Reply>, last: Reply, c: Claim)
    requires Inv(c) && !c.done && c.entry.error == None && c.completed == BatchesOf(init)
    requires AllComplete(init) && !Completes(init, last)
    ensures var d := Round(c, last);
      && d.done && d.completed == c.completed && d.entry == c.entry.(error := d.entry.error)
      && IsErrorOf(init, last, d.entry.error)
  {
    CompleteAreOffers(init);
    BatchesOfCompleted(init);
    PoolsPositive(c.completed);
    if last.Offer? { DuplicateIffRepeats(init, c, last.batch); }
  }

  /** A reply that completes adds its batch and its signatures. */
  lemma CompletionAdds(init: seq<Reply>, last: Reply, c: Claim)
    requires Inv(c) && !c.done && c.completed == BatchesOf(init)
    requires AllComplete(init) && Completes(init, last)
    ensures Round(c, last) == Complete(c, last.batch, last.order.signatures)
  {
    CompleteAreOffers(init);
    DuplicateIffRepeats(init, c, last.batch);
  }

  lemma TotalsNext(init: seq<Reply>, last: Reply, c: Claim)
    requires Totals(init, c.entry) && c.completed == BatchesOf(init) && last.Offer? && last.order.Ordered?
    ensures var d := Complete(c, last.batch, last.order.signatures);
      Totals(init + [last], d.entry) && d.completed == BatchesOf(init + [last])
  {
    BatchesAppend(init, last);
  }

  /** One more reply after rounds that all completed. */
  lemma RunEndsNext(init: seq<Reply>, last: Reply, c: Claim) returns (k: int)
    requires Inv(c) && !c.done && c.entry.error == None && Totals(init, c.entry) && c.completed == BatchesOf(init)
    requires AllComplete(init)
    ensures var replies, d := init + [last], Round(c, last);
      ClaimEnds(replies, k, d.entry, d.done) && d.completed == BatchesOf(replies[..k])
  {
    var replies := init + [last];
    assert replies[..|init|] == init && replies[|init|] == last && replies[..|init| + 1] == replies;
    if Completes(init, last) {
      k := |init| + 1;
      CompletionAdds(init, last, c);
      TotalsNext(init, last, c);
    } else {
      k := |init|;
      StopSetsError(init, last, c);
    }
  }

  lemma {:induction false} RunEnds(replies: seq<Reply>) returns (k: int)
    ensures ClaimEnds(replies, k, Rounds(replies).entry, Rounds(replies).done)
    ensures Rounds(replies).completed == BatchesOf(replies[..k])
    decreases |replies|
  {
    if replies == [] {
      k := 0;
    } else {
      var init, last := replies[..|replies| - 1], replies[|replies| - 1];
      k := RunEnds(init);
      assert replies == init + [last];
      if Rounds(init).done {
        ClaimEndsLonger(init, last, k, Rounds(init).entry);
        assert replies[..k] == init[..k];
      } else {
        assert k == |init| && init[..k] == init;
        RoundsKeepInv(init);
        k := RunEndsNext(init, last, Rounds(init));
      }
    }
  }

  lemma BatchesAppend(init: seq<Reply>, last: Reply)
    requires last.Offer? && last.order.Ordered?
    ensures
      var replies, batches := init + [last], BatchesOf(init);
      && BatchesOf(replies) == batches + [last.batch]
      && SignaturesOf(replies) == SignaturesOf(init) + last.order.signatures
      && Pools(batches + [last.batch]) == Pools(batches) + |last.batch.items|
      && Usd(batches + [last.batch]) == Usd(batches) + last.batch.bonusUsd
  {
    var batches := BatchesOf(init);
    assert (init + [last])[..|init|] == init;
    assert (batches + [last.batch])[..|batches|] == batches;
  }

  /** The claim, said of the server's replies: it stops at the first one that does not complete. */
  method ClaimCopyBonus(replies: seq<Reply>) returns (entry: Entry, stopped: bool)
    ensures exists k :: ClaimEnds(replies, k, entry, stopped)
    ensures entry == Rounds(replies).entry && stopped == Rounds(replies).done
  {
    entry, stopped := ClaimRounds(replies);
    ghost var k := RunEnds(replies);
  }

  // ---------- termination ----------

  /** A batch that a later offer of it would be recognised by. */
  predicate Identifiable(b: Batch) {
    b.orderCode != "" || Keys(b) != {}
  }

  /** All keys and codes of the batches come from the given sets, and every batch has one of either. */
  predicate Named(batches: seq<Batch>, keys: set<string>, codes: set<string>) {
    forall i :: 0 <= i < |batches| ==>
      Identifiable(batches[i]) && Keys(batches[i]) <= keys && Code(batches[i]) <= codes
  }

  lemma DisjointSizes(a: set<string>, b: set<string>)
    requires a !! b
    ensures |a + b| == |a| + |b|
  {
  }

  /** Batches that are pairwise apart use up a new key or a new code each. */
  lemma {:induction false} ApartBatchesNeedNames(batches: seq<Batch>, keys: set<string>, codes: set<string>)
    requires forall i, j :: 0 <= i < j < |batches| ==> Apart(batches[i], batches[j])
    requires Named(batches, keys, codes)
    ensures |batches| <= |AllKeys(batches)| + |AllCodes(batches)|
    ensures AllKeys(batches) <= keys && AllCodes(batches) <= codes
    decreases |batches|
  {
    if batches != [] {
      var init, last := batches[..|batches| - 1], batches[|batches| - 1];
      assert Named(init, keys, codes);
      ApartBatchesNeedNames(init, keys, codes);
      forall i | 0 <= i < |init| ensures Apart(init[i], last) {
        assert Apart(batches[i], batches[|batches| - 1]);
      }
      ApartFromAll(init, last);
      DisjointSizes(AllKeys(init), Keys(last));
      DisjointSizes(AllCodes(init), Code(last));
      assert Identifiable(last);
      assert |Keys(last)| + |Code(last)| >= 1;
    }
  }

  /** Every batch on offer carries an order code or a reward key, all from finite sets. */
  predicate NamedOffers(replies: seq<Reply>, keys: set<string>, codes: set<string>) {
    forall i :: 0 <= i < |replies| && replies[i].Offer? && replies[i].batch.items != [] ==>
      Named([replies[i].batch], keys, codes)
  }

  lemma {:induction false} CompletedWereOffered(replies: seq<Reply>, keys: set<string>, codes: set<string>)
    requires NamedOffers(replies, keys, codes)
    ensures Named(Rounds(replies).completed, keys, codes)
    ensures !Rounds(replies).done ==> |Rounds(replies).completed| == |replies|
    decreases |replies|
  {
    if replies != [] {
      var init, r := replies[..|replies| - 1], replies[|replies| - 1];
      assert forall i :: 0 <= i < |init| ==> init[i] == replies[i];
      CompletedWereOffered(init, keys, codes);
      if r.Offer? && r.batch.items != [] {
        assert Named([r.batch], keys, codes);
        assert r.batch == [r.batch][0];
      }
    }
  }

  /** A server whose batches carry order codes or reward keys from finite sets cannot keep the
      unbounded loop running: it ends within one round more than there are codes and keys. */
  lemma LoopTerminates(replies: seq<Reply>, keys: set<string>, codes: set<string>)
    requires NamedOffers(replies, keys, codes) && |replies| > |keys| + |codes|
    ensures Rounds(replies).done && |Rounds(replies).completed| <= |keys| + |codes|
  {
    var c := Rounds(replies);
    RoundsKeepInv(replies);
    CompletedWereOffered(replies, keys, codes);
    ApartBatchesNeedNames(c.completed, keys, codes);
    SubsetSize(AllKeys(c.completed), keys);
    SubsetSize(AllCodes(c.completed), codes);
  }

  lemma {:induction false} SubsetSize(a: set<string>, b: set<string>)
    requires a <= b
    ensures |a| <= |b|
    decreases a
  {
    if a != {} {
      var x :| x in a;
      SubsetSize(a - {x}, b - {x});
    }
  }

  /** A server that offers the same batch for ever is stopped after one order exactly when the batch
      carries an order code or some reward key; otherwise it is ordered every round, without end. */
  lemma {:induction false} RepeatedOfferStopsIffIdentifiable(b: Batch, signatures: seq<string>, n: nat)
    requires b.items != [] && n > 0
    ensures var c := Rounds(seq(n, _ => Offer(b, Ordered(signatures))));
      if Identifiable(b)
      then c.completed == [b] && (c.done <==> n > 1)
      else !c.done && |c.completed| == n && c.seenOrderCodes == {} && c.seenRewardKeys == {}
    decreases n
  {
    var offer := Offer(b, Ordered(signatures));
    var replies := seq(n, _ => offer);
    var init := seq(n - 1, _ => offer);
    assert replies[..n - 1] == init && replies[n - 1] == offer;
    if n == 1 {
      assert init == [];
    } else {
      RepeatedOfferStopsIffIdentifiable(b, signatures, n - 1);
      var c := Rounds(init);
      if Identifiable(b) && n == 2 {
        assert seq(1, _ => offer)[..0] == [];
        assert c == Complete(START, b, signatures);
        assert Identifiable(b) && (Keys(b) != {} ==> !(Keys(b) !! c.seenRewardKeys));
      }
    }
  }
}
