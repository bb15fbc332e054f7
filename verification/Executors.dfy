/**
  The decrease paths of the executors, as methods over the position map. What the executor reads of
  the target and of our own position, and the fate of each transaction it sends, are inputs. Our
  liquidity is a field that counts every transaction sent so far that takes effect, be it at once or
  later; what is read of our position may lag behind it or be anything else.
 */
module Executors {
  import opened Options
  import opened Arithmetic
  import opened MirrorArithmetic

  datatype Entry = Entry(mine: string, targetLiquidity: Option<nat>)

  /** What one send ends in, as its caller sees it: a signature, or an error whose text may match the
      transient pattern, the failed-simulation pattern, both or neither. Neither says for certain what
      the chain did: Byreal returns a signature without confirming it, DAMM v2 confirms but accepts a
      look-up that finds nothing, and a transaction whose send failed may have reached the chain. */
  datatype Reply = Sent(landed: bool) | Failed(transient: bool, simulation: bool, reached: bool)

  /** One try: our liquidity as read just before it (zero if unreadable), and what the send ends in. */
  datatype Send = Send(read: nat, reply: Reply)

  type Sends = nat -> Send

  /** The transaction takes effect on chain, sooner or later. */
  predicate Hit(reply: Reply) {
    if reply.Sent? then reply.landed else reply.reached
  }

  /** No transaction that was reported as failed has reached the chain. */
  ghost predicate Honest(sends: Sends) {
    forall k: nat :: sends(k).reply.Failed? ==> !sends(k).reply.reached
  }

  /** Every signature is that of a transaction that landed. */
  ghost predicate Confirmed(sends: Sends) {
    forall k: nat :: sends(k).reply.Sent? ==> sends(k).reply.landed
  }

  datatype TxType = DECREASE | COLLECT_FEE

  const MAX_ATTEMPTS := 2

  /** How an executor repeats: `tries` sends per attempt while errors are transient, then a second
      attempt on a transient error or on a failed simulation; some look whether anything is left
      before a full decrease. */
  datatype Retry = Retry(tries: nat, onTransient: bool, checksEmpty: bool)

  const BYREAL := Retry(3, false, false)
  const DAMM_V2 := Retry(1, true, true)

  datatype Venue = Byreal | DammV2

  function RuleOf(venue: Venue): Retry {
    if venue.Byreal? then BYREAL else DAMM_V2
  }

  /** What a call is out to remove. */
  datatype Ask = Fees | Everything | Part(liquidity: nat)

  /** The source's amount: null for everything, zero for fees only. */
  function AskOf(amount: Option<nat>): Ask {
    if amount.None? then Everything else if amount.value == 0 then Fees else Part(amount.value)
  }

  /** The retry loops of one call, with all their inputs. */
  datatype Call = Call(rule: Retry, ask: Ask, sends: Sends)

  // ---------- one try ----------

  /** What a transaction asks the chain to remove from a position that holds at most `all`. */
  function Asked(ask: Ask, all: nat, read: nat): nat {
    match ask
    case Fees => 0
    case Everything => all
    case Part(liquidity) => if liquidity < read then liquidity else read
  }

  /** Nothing is sent for a position that reads as empty. */
  predicate Refuses(c: Call, read: nat) {
    match c.ask
    case Fees => false
    case Everything => c.rule.checksEmpty && read == 0
    case Part(liquidity) => liquidity == 0 || read == 0
  }

  const REFUSAL := Failed(false, false, false)

  /** How the k-th try ends for the loops around it. */
  function Answer(c: Call, k: nat): Reply {
    if Refuses(c, c.sends(k).read) then REFUSAL else c.sends(k).reply
  }

  predicate TriesAgain(rule: Retry, reply: Reply) {
    reply.Failed? && if rule.onTransient then reply.transient else reply.simulation
  }

  // ---------- which tries are made ----------

  /** The last try that is made, from the k-th on, `attempt` and `try` being already under way. */
  function LastFrom(c: Call, k: nat, attempt: nat, try: nat): (n: nat)
    ensures n >= k
    decreases MAX_ATTEMPTS - attempt, c.rule.tries - try
  {
    var reply := Answer(c, k);
    if reply.Sent? then k
    else if reply.transient && try + 1 < c.rule.tries then LastFrom(c, k + 1, attempt, try + 1)
    else if TriesAgain(c.rule, reply) && attempt + 1 < MAX_ATTEMPTS then LastFrom(c, k + 1, attempt + 1, 0)
    else k
  }

  function Last(c: Call): nat {
    LastFrom(c, 0, 0, 0)
  }

  /** An attempt of at most `tries` tries begins with `from` and ends with `end`: every earlier error
      was transient, and the last reply is a signature, not transient, or that of the last try. */
  ghost predicate AttemptSpans(c: Call, tries: nat, from: nat, end: nat) {
    && from <= end < from + tries
    && (forall k: nat :: from <= k < end ==> Answer(c, k).Failed? && Answer(c, k).transient)
    && (Answer(c, end).Sent? || !Answer(c, end).transient || end + 1 == from + tries)
  }

  lemma AttemptSpansOnce(c: Call, tries: nat, from: nat, a: nat, b: nat)
    requires AttemptSpans(c, tries, from, a) && AttemptSpans(c, tries, from, b)
    ensures a == b
  {
  }

  lemma {:induction false} LastFromSpans(c: Call, k: nat, attempt: nat, try: nat) returns (first: nat)
    requires try < c.rule.tries
    ensures AttemptSpans(c, c.rule.tries - try, k, first)
    ensures LastFrom(c, k, attempt, try) ==
      if TriesAgain(c.rule, Answer(c, first)) && attempt + 1 < MAX_ATTEMPTS
      then LastFrom(c, first + 1, attempt + 1, 0) else first
    decreases c.rule.tries - try
  {
    first := k;
    if Answer(c, k).Failed? && Answer(c, k).transient && try + 1 < c.rule.tries {
      first := LastFromSpans(c, k + 1, attempt, try + 1);
    }
  }

  /** The nested loops make one attempt, and a second one right after it exactly when the last error
      of the first calls for it; there are no others. */
  lemma SendsAreTwoAttempts(c: Call, first: nat)
    requires AttemptSpans(c, c.rule.tries, 0, first)
    ensures if TriesAgain(c.rule, Answer(c, first)) then AttemptSpans(c, c.rule.tries, first + 1, Last(c))
            else Last(c) == first
  {
    var n := LastFromSpans(c, 0, 0, 0);
    AttemptSpansOnce(c, c.rule.tries, 0, n, first);
    if TriesAgain(c.rule, Answer(c, first)) {
      var m := LastFromSpans(c, first + 1, 1, 0);
    }
  }

  /** Only the last try can return a signature. */
  lemma {:induction false} EarlierTriesFailed(c: Call, k: nat, attempt: nat, try: nat)
    ensures forall i: nat :: k <= i < LastFrom(c, k, attempt, try) ==> Answer(c, i).Failed?
    decreases MAX_ATTEMPTS - attempt, c.rule.tries - try
  {
    var reply := Answer(c, k);
    if reply.Failed? && reply.transient && try + 1 < c.rule.tries {
      EarlierTriesFailed(c, k + 1, attempt, try + 1);
    } else if TriesAgain(c.rule, reply) && attempt + 1 < MAX_ATTEMPTS {
      EarlierTriesFailed(c, k + 1, attempt + 1, 0);
    }
  }

  // ---------- how often the chain is hit, and how much that takes ----------

  /** How many of the first `n` tries take effect. */
  function HitsUpTo(c: Call, n: nat): nat {
    if n == 0 then 0 else HitsUpTo(c, n - 1) + if Hit(Answer(c, n - 1)) then 1 else 0
  }

  function Hits(c: Call): nat {
    HitsUpTo(c, Last(c) + 1)
  }

  /** What the first `n` tries ask of the chain where they take effect. */
  function TakenUpTo(c: Call, all: nat, n: nat): nat {
    if n == 0 then 0
    else TakenUpTo(c, all, n - 1) + if Hit(Answer(c, n - 1)) then Asked(c.ask, all, c.sends(n - 1).read) else 0
  }

  /** What a call takes of a position that holds `all`. */
  function Taken(c: Call, all: nat): nat {
    TakenUpTo(c, all, Last(c) + 1)
  }

  ghost predicate SomeHit(c: Call, n: nat) {
    exists i: nat :: i < n && Hit(Answer(c, i))
  }

  ghost predicate NoTwoHit(c: Call, n: nat) {
    forall i: nat, j: nat :: i < j < n ==> !(Hit(Answer(c, i)) && Hit(Answer(c, j)))
  }

  /** The count, said of the tries themselves. */
  lemma {:induction false} HitsCount(c: Call, n: nat)
    ensures HitsUpTo(c, n) >= 1 <==> SomeHit(c, n)
    ensures HitsUpTo(c, n) <= 1 <==> NoTwoHit(c, n)
  {
    if n > 0 {
      HitsCount(c, n - 1);
      assert SomeHit(c, n) <==> Hit(Answer(c, n - 1)) || SomeHit(c, n - 1);
      assert NoTwoHit(c, n) <==> NoTwoHit(c, n - 1) && !(Hit(Answer(c, n - 1)) && SomeHit(c, n - 1));
    }
  }

  /** With honest failure reports the chain is hit at most once, namely by a last try that was accepted
      and landed; if signatures are confirmed too, exactly when one is reported. */
  lemma HonestSendsHitOnce(c: Call)
    requires Honest(c.sends)
    ensures Hits(c) == if Hit(Answer(c, Last(c))) then 1 else 0
    ensures Confirmed(c.sends) ==> (Hits(c) == 1 <==> Answer(c, Last(c)).Sent?)
  {
    EarlierTriesFailed(c, 0, 0, 0);
    HitsCount(c, Last(c));
  }

  /** Some try takes effect that had read at least the amount asked for. */
  ghost predicate FullHit(c: Call, amount: nat, n: nat) {
    exists k: nat :: k < n && Hit(Answer(c, k)) && c.sends(k).read >= amount
  }

  /** Every hit takes something and none more than the amount; a full one takes all of it. */
  lemma {:induction false} TakenPerHit(c: Call, amount: nat, all: nat, n: nat)
    requires c.ask == Part(amount)
    ensures HitsUpTo(c, n) <= TakenUpTo(c, all, n)
    ensures HitsUpTo(c, n) == 0 ==> TakenUpTo(c, all, n) == 0
    ensures HitsUpTo(c, n) <= 1 ==> TakenUpTo(c, all, n) <= amount
    ensures FullHit(c, amount, n) ==> amount + HitsUpTo(c, n) <= TakenUpTo(c, all, n) + 1
  {
    if n > 0 {
      TakenPerHit(c, amount, all, n - 1);
      assert FullHit(c, amount, n) ==>
        FullHit(c, amount, n - 1) || (Hit(Answer(c, n - 1)) && c.sends(n - 1).read >= amount);
    }
  }

  /** A try that takes effect alone takes the amount or all that it read, whichever is less. */
  lemma {:induction false} LoneHitTakes(c: Call, amount: nat, all: nat, k: nat, n: nat)
    requires c.ask == Part(amount) && k < n && Hit(Answer(c, k)) && HitsUpTo(c, n) <= 1
    ensures
      var taken, read := TakenUpTo(c, all, n), c.sends(k).read;
      taken <= amount && taken <= read && (taken == amount || taken == read)
    decreases n
  {
    HitsCount(c, n);
    TakenPerHit(c, amount, all, n - 1);
    if k < n - 1 {
      LoneHitTakes(c, amount, all, k, n - 1);
    } else {
      assert !SomeHit(c, n - 1);
      HitsCount(c, n - 1);
    }
  }

  /** A position that reads as empty: nothing is sent for a share of it, nor, on DAMM v2, for all of it;
      Byreal sends a full decrease without looking. */
  lemma EmptyReads(c: Call)
    requires forall k: nat :: c.sends(k).read == 0
    ensures c.ask.Part? || (c.ask.Everything? && c.rule == DAMM_V2) ==>
      Hits(c) == 0 && Report(c, false, false) == None
    ensures c.ask.Everything? && c.rule == BYREAL ==> forall k: nat :: Answer(c, k) == c.sends(k).reply
    ensures c.ask.Fees? ==> forall k: nat :: Answer(c, k) == c.sends(k).reply
  {
    HitsCount(c, Last(c) + 1);
  }

  /** The retry budgets. Byreal: up to three sends on transient errors, then once more the same on a
      failed simulation. DAMM v2: one send, and one more on a transient error. */
  lemma RetryBudgets(c: Call)
    requires c.rule == BYREAL || c.rule == DAMM_V2
    requires forall k: nat :: Answer(c, k) == Answer(c, 0) // every try ends alike
    ensures Answer(c, 0).Sent? ==> Last(c) == 0
    ensures c.rule == BYREAL && Answer(c, 0).Failed? ==>
      Last(c) + 1 == (if Answer(c, 0).transient then 3 else 1) * (if Answer(c, 0).simulation then 2 else 1)
    ensures c.rule == DAMM_V2 && Answer(c, 0).Failed? ==> Last(c) + 1 == if Answer(c, 0).transient then 2 else 1
  {
    if Answer(c, 0).Failed? {
      var first := LastFromSpansAlike(c, 0, 0);
      if TriesAgain(c.rule, Answer(c, 0)) { var second := LastFromSpansAlike(c, first + 1, 1); }
    }
  }

  lemma LastFromSpansAlike(c: Call, k: nat, attempt: nat) returns (first: nat)
    requires c.rule.tries > 0 && Answer(c, 0).Failed? && forall i: nat :: Answer(c, i) == Answer(c, 0)
    ensures first + 1 == k + if Answer(c, 0).transient then c.rule.tries else 1
    ensures LastFrom(c, k, attempt, 0) ==
      if TriesAgain(c.rule, Answer(c, 0)) && attempt + 1 < MAX_ATTEMPTS then LastFrom(c, first + 1, attempt + 1, 0) else first
  {
    first := LastFromSpans(c, k, attempt, 0);
    assert Answer(c, first) == Answer(c, 0) && Answer(c, k) == Answer(c, 0);
  }

  /** If every read covers the amount, each hit takes exactly that. */
  lemma {:induction false} CoveredHitsTakeAmount(c: Call, amount: nat, all: nat, n: nat)
    requires c.ask == Part(amount)
    requires forall k: nat :: k < n && Hit(Answer(c, k)) ==> c.sends(k).read >= amount
    ensures TakenUpTo(c, all, n) == HitsUpTo(c, n) * amount
  {
    if n > 0 {
      CoveredHitsTakeAmount(c, amount, all, n - 1);
      Distribute(HitsUpTo(c, n - 1), 1, amount);
    }
  }

  lemma {:induction false} FeesTakeNothing(c: Call, all: nat, n: nat)
    requires c.ask.Fees?
    ensures TakenUpTo(c, all, n) == 0
  {
    if n > 0 { FeesTakeNothing(c, all, n - 1); }
  }

  /** A full decrease takes everything exactly when some try takes effect. */
  lemma {:induction false} EverythingIsTakenIffHit(c: Call, all: nat, n: nat)
    requires c.ask.Everything?
    ensures TakenUpTo(c, all, n) >= all <==> all == 0 || HitsUpTo(c, n) >= 1
    ensures HitsUpTo(c, n) == 0 ==> TakenUpTo(c, all, n) == 0
  {
    if n > 0 { EverythingIsTakenIffHit(c, all, n - 1); }
  }

  // ---------- what a call is about ----------

  /** The amount to remove, computed from our liquidity as `seen` by the executor; None means all of
      it, zero means fees only. */
  function Planned(stored: Option<nat>, seen: Option<nat>, current: Option<nat>): Option<nat> {
    if current.None? || current.value == 0 then None
    else if stored.None? || current.value >= stored.value then Some(0)
    else if seen.Some? then Some(Share(seen.value, stored.value, current.value))
    else None
  }

  /** The same as a table over the inputs. A partial decrease of a readable position is our liquidity as
      seen, times the fraction the target removed, rounded down. */
  ghost predicate IsAmount(stored: Option<nat>, seen: Option<nat>, current: Option<nat>, amount: Option<nat>) {
    && (current.None? || current.value == 0 ==> amount == None)
    && (current.Some? && current.value > 0 && (stored.None? || current.value >= stored.value) ==> amount == Some(0))
    && (current.Some? && stored.Some? && 0 < current.value < stored.value ==>
          if seen.None? then amount == None
          else
            && amount.Some?
            && amount.value * stored.value <= seen.value * (stored.value - current.value)
            && seen.value * (stored.value - current.value) < amount.value * stored.value + stored.value)
  }

  /** What a call for `amount` does to the `before` units that we hold, and what it reports. */
  ghost predicate Carries(rule: Retry, sends: Sends, amount: Option<nat>, dryRun: bool, busy: bool,
                          before: nat, after: nat, r: Option<TxType>) {
    && (amount.None? ==>
          var c := Call(rule, Everything, sends);
          && after == (if dryRun || busy || !SomeHit(c, Last(c) + 1) then before else 0)
          && r == if dryRun || (!busy && Answer(c, Last(c)).Sent?) then Some(DECREASE) else None)
    && (amount == Some(0) ==>
          var c := Call(rule, Fees, sends);
          && after == before
          && r == if dryRun || (!busy && Answer(c, Last(c)).Sent?) then Some(COLLECT_FEE) else None)
    && (amount.Some? && amount.value > 0 ==>
          var c := Call(rule, Part(amount.value), sends);
          && after == (if dryRun || busy then before else Left(before, Taken(c, before)))
          && r == if dryRun || (!busy && Answer(c, Last(c)).Sent?) then Some(DECREASE) else None)
  }

  /** The plan is that amount, and a call by the plan carries it. */
  lemma PlanIsCarried(rule: Retry, sends: Sends, stored: Option<nat>, seen: Option<nat>, current: Option<nat>,
                      dryRun: bool, busy: bool, before: nat)
    ensures
      var amount, c := Planned(stored, seen, current), CallOf(rule, stored, seen, current, sends);
      && IsAmount(stored, seen, current, amount)
      && Carries(rule, sends, amount, dryRun, busy, before,
           if dryRun || busy then before else Left(before, Taken(c, before)), Report(c, dryRun, busy))
  {
    var c := CallOf(rule, stored, seen, current, sends);
    if c.ask.Fees? { FeesTakeNothing(c, before, Last(c) + 1); }
    if c.ask.Everything? {
      EverythingIsTakenIffHit(c, before, Last(c) + 1);
      HitsCount(c, Last(c) + 1);
    }
  }

  function CallOf(rule: Retry, stored: Option<nat>, seen: Option<nat>, current: Option<nat>, sends: Sends): Call {
    Call(rule, AskOf(Planned(stored, seen, current)), sends)
  }

  /** The result of a call. */
  function Report(c: Call, dryRun: bool, busy: bool): Option<TxType> {
    if dryRun || (!busy && Answer(c, Last(c)).Sent?)
    then Some(if c.ask.Fees? then COLLECT_FEE else DECREASE) else None
  }

  /** A call for a partial decrease, in terms of what was seen of our position. It leaves us at the
      target's share or above iff it takes no more than the share of what we really hold, and less than
      a unit above iff it takes no less. If every read covers the amount, it takes the share of what was
      seen once per transaction that takes effect. */
  lemma CallKeepsShareIff(c: Call, m: Mirror, seen: nat, current: nat)
    requires 0 < current < m.stored && c.ask == Part(Share(seen, m.stored, current))
    ensures
      var left, share := Left(m.ours, Taken(c, m.ours)), Share(m.ours, m.stored, current);
      && (m.ours * current <= left * m.stored <==> m.ours == 0 || Taken(c, m.ours) <= share)
      && (left * m.stored < m.ours * current + m.stored <==> Taken(c, m.ours) >= share)
    ensures (forall k: nat :: k <= Last(c) && Hit(Answer(c, k)) ==> c.sends(k).read >= Share(seen, m.stored, current)) ==>
      Taken(c, m.ours) == Hits(c) * Share(seen, m.stored, current)
  {
    KeepsShareIffNoMore(m, current, Taken(c, m.ours));
    WithinUnitIffNoLess(m, current, Taken(c, m.ours));
    if forall k: nat :: k <= Last(c) && Hit(Answer(c, k)) ==> c.sends(k).read >= Share(seen, m.stored, current) {
      CoveredHitsTakeAmount(c, Share(seen, m.stored, current), m.ours, Last(c) + 1);
    }
  }

  /** If our position was seen as it is and a hit, if there is one, had read the whole share: not below
      the target's share iff no two transactions take effect, within a unit of it iff one does. */
  lemma ShareIsTakenIffHitOnce(c: Call, m: Mirror, current: nat)
    requires 0 < current < m.stored && Share(m.ours, m.stored, current) > 0
    requires c.ask == Part(Share(m.ours, m.stored, current))
    requires Hits(c) >= 1 ==> FullHit(c, Share(m.ours, m.stored, current), Last(c) + 1)
    ensures
      var left := Left(m.ours, Taken(c, m.ours));
      && (m.ours * current <= left * m.stored <==> Hits(c) <= 1)
      && (left * m.stored < m.ours * current + m.stored <==> Hits(c) >= 1)
  {
    LeftoverIsCeiling(m.ours, m.stored, current);
    CallKeepsShareIff(c, m, m.ours, current);
    TakenPerHit(c, Share(m.ours, m.stored, current), m.ours, Last(c) + 1);
  }

  /** Nobody looks whether a failed send has reached the chain: under both rules, one that timed out
      after reaching it is repeated, and we end below the target's share. */
  lemma RepeatedSendOvershoots(c: Call, m: Mirror, current: nat)
    requires c.rule == BYREAL || c.rule == DAMM_V2
    requires 0 < current < m.stored && Share(m.ours, m.stored, current) > 0
    requires c.ask == Part(Share(m.ours, m.stored, current))
    requires c.sends(0).reply.Failed? && c.sends(0).reply.transient && c.sends(0).reply.reached
    requires c.sends(1).reply == Sent(true)
    requires c.sends(0).read == m.ours && c.sends(1).read > 0
    ensures Hits(c) == 2 && Left(m.ours, Taken(c, m.ours)) * m.stored < m.ours * current
  {
    LeftoverIsCeiling(m.ours, m.stored, current);
    assert Answer(c, 0) == c.sends(0).reply && Answer(c, 1) == c.sends(1).reply;
    assert LastFrom(c, 1, 0, 1) == 1 && LastFrom(c, 1, 1, 0) == 1;
    assert Last(c) == 1;
    assert HitsUpTo(c, 0) == 0 && HitsUpTo(c, 1) == 1;
    assert FullHit(c, Share(m.ours, m.stored, current), 2);
    ShareIsTakenIffHitOnce(c, m, current);
  }

  /** On either venue a signature whose transaction does not take effect is reported as a decrease;
      the baseline has moved, nothing was removed, and the excess stays. */
  lemma UnlandedSignatureLeavesExcess(c: Call, m: Mirror, current: nat)
    requires 0 < current < m.stored && Share(m.ours, m.stored, current) > 0
    requires c.ask == Part(Share(m.ours, m.stored, current))
    requires c.sends(0).reply == Sent(false) && c.sends(0).read > 0
    ensures Report(c, false, false) == Some(DECREASE) && Taken(c, m.ours) == 0
    ensures m.ours * m.stored >= m.ours * current + m.stored
  {
    assert Answer(c, 0) == Sent(false) && Last(c) == 0;
    assert TakenUpTo(c, m.ours, 0) == 0;
    CallKeepsShareIff(c, m, m.ours, current);
  }

  /** A position seen too early. The target halves twice; the second call still sees what we held
      before the first removal. Each call has exactly one transaction and it lands, yet we end with
      nothing while the target keeps a quarter. */
  lemma StaleReadEmptiesPosition(first: Call, second: Call, quarter: nat)
    requires quarter > 0
    requires first == CallOf(first.rule, Some(4 * quarter), Some(4 * quarter), Some(2 * quarter), first.sends)
    requires second == CallOf(second.rule, Some(2 * quarter), Some(4 * quarter), Some(quarter), second.sends)
    requires first.sends(0) == second.sends(0) == Send(4 * quarter, Sent(true))
    ensures Hits(first) == 1 && Hits(second) == 1
    ensures Run([Mirror(4 * quarter, 4 * quarter), Mirror(2 * quarter, 2 * quarter), Mirror(quarter, 0)],
                [Decreased(2 * quarter, Taken(first, 4 * quarter)), Decreased(quarter, Taken(second, 2 * quarter))])
  {
    var half, full := 2 * quarter, 4 * quarter;
    HalfIsShare(full, half, full);
    HalfIsShare(half, quarter, full);
    HitOnFirstTry(first, half, full);
    HitOnFirstTry(second, half, half);
  }

  /** The share of a halved target is half of what is seen. */
  lemma HalfIsShare(stored: nat, current: nat, seen: nat)
    requires 0 < current && stored == 2 * current && seen % 2 == 0
    ensures Share(seen, stored, current) == seen / 2
  {
    var half := seen / 2;
    assert seen == 2 * half && stored - current == current;
    assert seen * current == half * stored by {
      Swap(2, half, current);
      assert (2 * current) * half == half * (2 * current);
    }
    DivisionIsUnique(seen * current, stored, half);
  }

  lemma HitOnFirstTry(c: Call, amount: nat, all: nat)
    requires c.ask == Part(amount) && amount > 0
    requires c.sends(0).reply == Sent(true) && c.sends(0).read >= amount
    ensures Hits(c) == 1 && Taken(c, all) == amount
  {
    assert Answer(c, 0) == Sent(true) && Last(c) == 0;
    assert HitsUpTo(c, 0) == 0 && TakenUpTo(c, all, 0) == 0;
  }

  // ---------- one event of a run ----------

  /** One event: the target's liquidity as read, whether the pool was readable, our own liquidity as
      seen if it was readable, and the tries. */
  datatype Seen = Seen(current: nat, poolReadable: bool, ours: Option<nat>, sends: Sends)

  function EventCall(venue: Venue, m: Mirror, e: Seen): Call {
    CallOf(RuleOf(venue), Some(m.stored), e.ours, Some(e.current), e.sends)
  }

  /** Which step of the mirroring run an event is. */
  function StepOf(venue: Venue, m: Mirror, e: Seen, busy: bool): (s: Step)
    requires e.current > 0
    ensures Fits(m, s)
  {
    if e.current >= m.stored || (venue.DammV2? && (busy || !e.poolReadable)) then Unchanged
    else Decreased(e.current, if busy then 0 else Taken(EventCall(venue, m, e), m.ours))
  }

  /** The event saw no more than we hold and hits the chain at most once; if it could not see our
      position, it does not hit it at all. An event that only collects fees is free. */
  ghost predicate Cautious(venue: Venue, m: Mirror, e: Seen) {
    var c := EventCall(venue, m, e);
    match c.ask
    case Fees => true
    case Everything => Hits(c) == 0
    case Part(_) => e.ours.Some? && e.ours.value <= m.ours && Hits(c) <= 1
  }

  /** The event saw no less than we hold and hits the chain with the whole amount. An event that finds
      the target unchanged is free, and so is a share of zero that was rightly computed. */
  ghost predicate Ample(venue: Venue, m: Mirror, e: Seen) {
    var c := EventCall(venue, m, e);
    match c.ask
    case Fees => e.current >= m.stored || (e.ours.Some? && e.ours.value >= m.ours)
    case Everything => Hits(c) >= 1
    case Part(amount) => e.ours.Some? && e.ours.value >= m.ours && FullHit(c, amount, Last(c) + 1)
  }

  lemma CautiousTakesNoMore(venue: Venue, m: Mirror, e: Seen, busy: bool)
    requires e.current > 0 && Cautious(venue, m, e)
    ensures NoMore(m, StepOf(venue, m, e, busy))
  {
    var c := EventCall(venue, m, e);
    if e.current < m.stored {
      match c.ask {
        case Fees => FeesTakeNothing(c, m.ours, Last(c) + 1);
        case Everything => EverythingIsTakenIffHit(c, m.ours, Last(c) + 1);
        case Part(amount) =>
          TakenPerHit(c, amount, m.ours, Last(c) + 1);
          ShareIsMonotone(e.ours.value, m.ours, m.stored, e.current);
      }
    }
  }

  lemma AmpleTakesNoLess(venue: Venue, m: Mirror, e: Seen, busy: bool)
    requires e.current > 0 && Ample(venue, m, e) && (venue.DammV2? || !busy)
    ensures NoLess(m, StepOf(venue, m, e, busy))
  {
    var c := EventCall(venue, m, e);
    if e.current < m.stored {
      LeftoverIsCeiling(m.ours, m.stored, e.current);
      match c.ask {
        case Fees => ShareIsMonotone(m.ours, e.ours.value, m.stored, e.current);
        case Everything => EverythingIsTakenIffHit(c, m.ours, Last(c) + 1);
        case Part(amount) =>
          TakenPerHit(c, amount, m.ours, Last(c) + 1);
          HitsCount(c, Last(c) + 1);
          ShareIsMonotone(m.ours, e.ours.value, m.stored, e.current);
      }
    }
  }

  ghost predicate AllCautious(venue: Venue, trace: seq<Mirror>, events: seq<Seen>)
    requires |trace| == |events| + 1
  {
    forall i :: 0 <= i < |events| ==> Cautious(venue, trace[i], events[i])
  }

  ghost predicate AllAmple(venue: Venue, trace: seq<Mirror>, events: seq<Seen>)
    requires |trace| == |events| + 1
  {
    forall i :: 0 <= i < |events| ==> Ample(venue, trace[i], events[i])
  }

  lemma EventsDecideRun(venue: Venue, trace: seq<Mirror>, events: seq<Seen>, steps: seq<Step>, busy: bool)
    requires Run(trace, steps) && |steps| == |events| && forall i :: 0 <= i < |events| ==> events[i].current > 0
    requires forall i :: 0 <= i < |events| ==> steps[i] == StepOf(venue, trace[i], events[i], busy)
    ensures AllCautious(venue, trace, events) ==> AllNoMore(trace, steps)
    ensures (venue.DammV2? || !busy) && AllAmple(venue, trace, events) ==> AllNoLess(trace, steps)
  {
    forall i | 0 <= i < |events| && Cautious(venue, trace[i], events[i]) ensures NoMore(trace[i], steps[i]) {
      CautiousTakesNoMore(venue, trace[i], events[i], busy);
    }
    forall i | 0 <= i < |events| && (venue.DammV2? || !busy) && Ample(venue, trace[i], events[i])
      ensures NoLess(trace[i], steps[i])
    {
      AmpleTakesNoLess(venue, trace[i], events[i], busy);
    }
  }

  /** Both bounds of the mirroring run, the upper one per event. */
  lemma RunBounds(trace: seq<Mirror>, steps: seq<Step>)
    requires Run(trace, steps) && trace[0].stored > 0
    ensures
      var before, after := trace[0], trace[|steps|];
      && (AllNoMore(trace, steps) ==>
            && before.ours * after.stored <= after.ours * before.stored
            && (before.ours > 0 ==> after.ours > 0))
      && (AllNoLess(trace, steps) ==>
            after.ours * before.stored <= before.ours * after.stored + |steps| * before.stored)
  {
    if AllNoMore(trace, steps) {
      NeverBelowShare(trace, steps);
      if trace[0].ours > 0 { NeverEmptied(trace, steps); }
    }
    if AllNoLess(trace, steps) {
      NeverFarAboveShare(trace, steps);
      DecreasesAtMost(steps);
      MulMono(DecreaseCount(steps), |steps|, trace[0].stored, trace[0].stored);
    }
  }

  class Executor {
    var positionMap: map<string, Entry>
    var busy: bool
    var liquidity: map<string, nat> // of our own positions, all sent transactions accounted for

    /** The baseline/liquidity pair that the arithmetic bounds are about. */
    ghost function MirrorOf(target: string): Mirror
      reads this
      requires Tracked(target)
    {
      Mirror(positionMap[target].targetLiquidity.value, liquidity[positionMap[target].mine])
    }

    ghost predicate Tracked(target: string)
      reads this
    {
      && target in positionMap
      && positionMap[target].targetLiquidity.Some?
      && positionMap[target].mine in liquidity
    }

    /** The target still has liquidity, but less than when last looked at. */
    ghost predicate Partial(target: string, current: Option<nat>)
      reads this
    {
      && target in positionMap
      && positionMap[target].targetLiquidity.Some?
      && current.Some?
      && 0 < current.value < positionMap[target].targetLiquidity.value
    }

    /** Decides what to remove from our position, as seen, and rewrites the baseline. */
    method PlanDecrease(target: string, current: Option<nat>, seen: Option<nat>) returns (amount: Option<nat>)
      requires target in positionMap
      modifies this`positionMap
      ensures IsAmount(old(positionMap[target].targetLiquidity), seen, current, amount)
      ensures amount == old(Planned(positionMap[target].targetLiquidity, seen, current))
      ensures positionMap ==
        if old(Partial(target, current)) then old(positionMap[target := positionMap[target].(targetLiquidity := current)])
        else old(positionMap)
    {
      amount := None;
      var entry := positionMap[target];
      if current.Some? && current.value != 0 {
        if entry.targetLiquidity.Some? {
          var stored := entry.targetLiquidity.value;
          if current.value < stored {
            if seen.Some? {
              amount := Some(Share(seen.value, stored, current.value));
            }
            positionMap := positionMap[target := entry.(targetLiquidity := current)];
          } else {
            amount := Some(0);
          }
        } else {
          amount := Some(0);
        }
      }
    }

    /** One attempt: tries until a reply is not transient or the tries are used up. `reply` is the last
        one, or a plain error when our position reads as empty. */
    method Attempt(c: Call, mine: string, from: nat, ghost attempt: nat, ghost all: nat) returns (reply: Reply, next: nat)
      requires c.rule.tries > 0 && !c.ask.Fees?
      requires mine in liquidity && liquidity[mine] == Left(all, TakenUpTo(c, all, from))
      modifies this`liquidity
      ensures liquidity == old(liquidity)[mine := Left(all, TakenUpTo(c, all, next))]
      ensures from < next && reply == Answer(c, next - 1)
      ensures LastFrom(c, from, attempt, 0) ==
        if TriesAgain(c.rule, reply) && attempt + 1 < MAX_ATTEMPTS then LastFrom(c, next, attempt + 1, 0) else next - 1
    {
      ghost var last := LastFrom(c, from, attempt, 0);
      var try := 0;
      next := from;
      while true
        invariant from <= next && try < c.rule.tries && last == LastFrom(c, next, attempt, try)
        invariant liquidity == old(liquidity)[mine := Left(all, TakenUpTo(c, all, next))]
        decreases c.rule.tries - try
      {
        var read := c.sends(next).read; // our position is read again before every send
        if Refuses(c, read) {
          reply := REFUSAL;
        } else {
          var asked := liquidity[mine];
          if c.ask.Part? { asked := if c.ask.liquidity < read then c.ask.liquidity else read; }
          reply := c.sends(next).reply;
          if Hit(reply) { liquidity := liquidity[mine := Left(liquidity[mine], asked)]; }
        }
        next := next + 1;
        if reply.Sent? || !(try + 1 < c.rule.tries && reply.transient) { return; }
        try := try + 1;
      }
    }

    /** The attempt loop of a partial or full decrease. */
    method SendDecrease(c: Call, mine: string) returns (ok: bool)
      requires c.rule.tries > 0 && !c.ask.Fees? && mine in liquidity
      modifies this`liquidity
      ensures ok <==> Answer(c, Last(c)).Sent?
      ensures liquidity == old(liquidity)[mine := Left(old(liquidity[mine]), Taken(c, old(liquidity[mine])))]
    {
      ghost var last, all := Last(c), liquidity[mine];
      assert liquidity == liquidity[mine := all];
      var next, attempt := 0, 0;
      while attempt < MAX_ATTEMPTS
        invariant attempt < MAX_ATTEMPTS && last == LastFrom(c, next, attempt, 0)
        invariant liquidity == old(liquidity)[mine := Left(all, TakenUpTo(c, all, next))]
      {
        var reply;
        reply, next := Attempt(c, mine, next, attempt, all);
        if reply.Sent? { return true; }
        if !(attempt < MAX_ATTEMPTS - 1 && TriesAgain(c.rule, reply)) { return false; }
        attempt := attempt + 1;
      }
      return false;
    }

    /** Fee collection: the same loops, but no liquidity moves. Successful iff the last try that the
        two attempts make returns a signature. */
    method CollectFees(c: Call) returns (ok: bool)
      requires c.rule.tries > 0 && c.ask.Fees?
      ensures ok <==> Answer(c, Last(c)).Sent?
    {
      var next, attempt, try := 0, 0, 0;
      while true
        invariant attempt < MAX_ATTEMPTS && try < c.rule.tries
        invariant Last(c) == LastFrom(c, next, attempt, try)
        decreases MAX_ATTEMPTS - attempt, c.rule.tries - try
      {
        var reply := c.sends(next).reply;
        if reply.Sent? { return true; }
        if reply.transient && try + 1 < c.rule.tries {
          try := try + 1;
        } else if attempt < MAX_ATTEMPTS - 1 && TriesAgain(c.rule, reply) {
          attempt, try := attempt + 1, 0;
        } else {
          return false;
        }
        next := next + 1;
      }
    }

    /** Collects fees or decreases, under the lock; reports what the last try returned. */
    method Execute(c: Call, mine: string) returns (r: Option<TxType>)
      requires c.rule.tries > 0 && mine in liquidity
      modifies this`liquidity
      ensures r == Report(c, false, false)
      ensures liquidity == old(liquidity)[mine := Left(old(liquidity[mine]), Taken(c, old(liquidity[mine])))]
    {
      var ok;
      if c.ask.Fees? {
        FeesTakeNothing(c, liquidity[mine], Last(c) + 1);
        assert liquidity == liquidity[mine := liquidity[mine]];
        ok := CollectFees(c);
        return if ok then Some(COLLECT_FEE) else None;
      }
      ok := SendDecrease(c, mine);
      return if ok then Some(DECREASE) else None;
    }

    /** Byreal: the baseline is rewritten before the lock is taken, so a busy executor, a dry run
        or a failed send loses the decrease. */
    method CopyDecreaseLiquidity(target: string, current: Option<nat>, seen: Option<nat>, dryRun: bool,
                                 sends: Sends) returns (r: Option<TxType>)
      requires target in positionMap ==> positionMap[target].mine in liquidity
      modifies this
      ensures busy == old(busy)
      ensures positionMap ==
        if old(Partial(target, current)) then old(positionMap[target := positionMap[target].(targetLiquidity := current)])
        else old(positionMap)
      ensures target !in positionMap ==> r.None? && liquidity == old(liquidity)
      ensures target in positionMap ==>
        var mine := positionMap[target].mine;
        var c := CallOf(BYREAL, old(positionMap[target].targetLiquidity), seen, current, sends);
        && r == Report(c, dryRun, old(busy))
        && liquidity == if dryRun || old(busy) then old(liquidity)
             else old(liquidity)[mine := Left(old(liquidity[mine]), Taken(c, old(liquidity[mine])))]
      // the same, said of the inputs
      ensures target in positionMap ==>
        var mine := positionMap[target].mine;
        && mine in liquidity && liquidity == old(liquidity)[mine := liquidity[mine]]
        && exists amount ::
             && IsAmount(old(positionMap[target].targetLiquidity), seen, current, amount)
             && Carries(BYREAL, sends, amount, dryRun, old(busy), old(liquidity[mine]), liquidity[mine], r)
    {
      if target !in positionMap { return None; }
      PlanIsCarried(BYREAL, sends, positionMap[target].targetLiquidity, seen, current, dryRun, busy,
                    liquidity[positionMap[target].mine]);
      var mine := positionMap[target].mine;
      var amount := PlanDecrease(target, current, seen);
      var c := Call(BYREAL, AskOf(amount), sends);
      if dryRun { return Some(if c.ask.Fees? then COLLECT_FEE else DECREASE); }
      if busy { return None; }
      busy := true;
      r := Execute(c, mine);
      busy := false;
    }

    /** DAMM v2: the lock is taken first, so a busy executor leaves the baseline for the next event;
        so does a pool whose address is unknown or whose state cannot be read. */
    method CopyRemoveLiquidity(target: string, poolReadable: bool, current: Option<nat>, seen: Option<nat>,
                               sends: Sends) returns (r: Option<TxType>)
      requires target in positionMap ==> positionMap[target].mine in liquidity
      modifies this
      ensures busy == old(busy)
      ensures target !in old(positionMap) || old(busy) || !poolReadable ==>
        r.None? && liquidity == old(liquidity) && positionMap == old(positionMap)
      ensures positionMap ==
        if old(Partial(target, current)) && !old(busy) && poolReadable
        then old(positionMap[target := positionMap[target].(targetLiquidity := current)])
        else old(positionMap)
      ensures target in positionMap && !old(busy) && poolReadable ==>
        var mine := positionMap[target].mine;
        var c := CallOf(DAMM_V2, old(positionMap[target].targetLiquidity), seen, current, sends);
        && r == Report(c, false, false)
        && liquidity == old(liquidity)[mine := Left(old(liquidity[mine]), Taken(c, old(liquidity[mine])))]
      // the same, said of the inputs
      ensures target in positionMap && !old(busy) && poolReadable ==>
        var mine := positionMap[target].mine;
        && mine in liquidity && liquidity == old(liquidity)[mine := liquidity[mine]]
        && exists amount ::
             && IsAmount(old(positionMap[target].targetLiquidity), seen, current, amount)
             && Carries(DAMM_V2, sends, amount, false, false, old(liquidity[mine]), liquidity[mine], r)
    {
      if target !in positionMap { return None; }
      PlanIsCarried(DAMM_V2, sends, positionMap[target].targetLiquidity, seen, current, false, false,
                    liquidity[positionMap[target].mine]);
      if busy { return None; }
      busy := true;
      if !poolReadable {
        busy := false;
        return None;
      }
      var mine := positionMap[target].mine;
      var amount := PlanDecrease(target, current, seen);
      r := Execute(Call(DAMM_V2, AskOf(amount), sends), mine);
      busy := false;
    }

    /** Meteora: the basis points to request, None for a full removal. The two clamps of the
        source are here; neither ever changes the value. */
    method PlanRemoveBps(target: string, current: Option<nat>) returns (removeBps: Option<int>)
      requires target in positionMap
      modifies this`positionMap
      ensures old(Partial(target, current)) ==>
        && positionMap == old(positionMap[target := positionMap[target].(targetLiquidity := current)])
        && removeBps == Some(Bps(old(positionMap[target].targetLiquidity.value), current.value))
        && 0 <= removeBps.value <= 9999
      ensures !old(Partial(target, current)) ==>
        && positionMap == old(positionMap)
        && removeBps == if current.None? || current.value == 0 then None else Some(0)
    {
      removeBps := None;
      var entry := positionMap[target];
      if current.Some? && current.value != 0 {
        if entry.targetLiquidity.Some? {
          var stored := entry.targetLiquidity.value;
          if current.value < stored {
            BpsBounds(stored, current.value);
            var bps: int := BnDiv((stored - current.value) * 10000, stored);
            if bps <= 0 { bps := 0; }
            if bps > 10000 { bps := 10000; }
            removeBps := Some(bps);
            positionMap := positionMap[target := entry.(targetLiquidity := current)];
          } else {
            removeBps := Some(0);
          }
        } else {
          removeBps := Some(0);
        }
      }
    }

    /** One event on either venue is one step of the mirroring run. */
    method FollowEvent(venue: Venue, target: string, e: Seen)
      requires Tracked(target) && e.current > 0
      modifies this
      ensures Tracked(target) && busy == old(busy)
      ensures MirrorOf(target) == Take(old(MirrorOf(target)), StepOf(venue, old(MirrorOf(target)), e, busy))
    {
      ghost var m := MirrorOf(target);
      if e.current >= m.stored {
        FeesTakeNothing(EventCall(venue, m, e), m.ours, Last(EventCall(venue, m, e)) + 1);
      }
      var r;
      if venue.Byreal? {
        r := CopyDecreaseLiquidity(target, Some(e.current), e.ours, false, e.sends);
      } else {
        r := CopyRemoveLiquidity(target, e.poolReadable, Some(e.current), e.ours, e.sends);
      }
    }

    /** A whole series of events, whatever is read and whatever fate each transaction meets. If no event
        takes more than the share of what we hold, our liquidity never falls below the target's share; if
        none takes less, it stays within one unit per event above it. A busy Byreal executor loses the
        decreases it meets, a busy DAMM v2 executor does not. */
    method FollowTarget(venue: Venue, target: string, events: seq<Seen>) returns (ghost trace: seq<Mirror>, ghost steps: seq<Step>)
      requires Tracked(target) && positionMap[target].targetLiquidity.value > 0
      requires forall i :: 0 <= i < |events| ==> events[i].current > 0
      modifies this
      ensures Tracked(target) && |steps| == |events| && Run(trace, steps)
      ensures trace[0] == old(MirrorOf(target)) && trace[|steps|] == MirrorOf(target)
      ensures forall i :: 0 <= i < |steps| ==> steps[i] == StepOf(venue, trace[i], events[i], old(busy))
      ensures AllCautious(venue, trace, events) ==> AllNoMore(trace, steps)
      ensures (venue.DammV2? || !old(busy)) && AllAmple(venue, trace, events) ==> AllNoLess(trace, steps)
      ensures
        var before, after := old(MirrorOf(target)), MirrorOf(target);
        && (AllNoMore(trace, steps) ==>
              && before.ours * after.stored <= after.ours * before.stored
              && (before.ours > 0 ==> after.ours > 0))
        && (AllNoLess(trace, steps) ==>
              after.ours * before.stored <= before.ours * after.stored + |events| * before.stored)
    {
      trace, steps := [MirrorOf(target)], [];
      for i := 0 to |events|
        invariant Tracked(target) && busy == old(busy) && |steps| == i && Run(trace, steps)
        invariant trace[0] == old(MirrorOf(target)) && trace[i] == MirrorOf(target)
        invariant forall k :: 0 <= k < i ==> steps[k] == StepOf(venue, trace[k], events[k], old(busy))
      {
        steps := steps + [StepOf(venue, MirrorOf(target), events[i], busy)];
        FollowEvent(venue, target, events[i]);
        trace := trace + [MirrorOf(target)];
      }
      RunBounds(trace, steps);
      EventsDecideRun(venue, trace, events, steps, busy);
    }

    /** Meteora: the requests of a whole series of observed target liquidities together keep at least
        the target's remaining fraction of a position, and at most one basis point per event more. */
    method FollowTargetBps(target: string, observed: seq<nat>) returns (requests: seq<int>)
      requires target in positionMap
      requires positionMap[target].targetLiquidity.Some? && positionMap[target].targetLiquidity.value > 0
      requires forall i :: 0 <= i < |observed| ==> observed[i] > 0
      modifies this`positionMap
      ensures target in positionMap && positionMap[target].targetLiquidity.Some?
      ensures |requests| == |observed| && forall i :: 0 <= i < |requests| ==> 0 <= requests[i] <= 9999
      ensures
        var before, after := old(positionMap[target].targetLiquidity.value), positionMap[target].targetLiquidity.value;
        Tracks(before, after, Remaining(requests), |requests|)
    {
      ghost var before := positionMap[target].targetLiquidity.value;
      requests := [];
      for i := 0 to |observed|
        invariant target in positionMap && positionMap[target].targetLiquidity.Some?
        invariant |requests| == i && forall k :: 0 <= k < i ==> 0 <= requests[k] <= 9999
        invariant Tracks(before, positionMap[target].targetLiquidity.value, Remaining(requests), i)
      {
        ghost var now, kept := positionMap[target].targetLiquidity.value, Remaining(requests);
        if observed[i] < now {
          TracksRequest(before, now, observed[i], kept, i);
        } else {
          TracksNothingRequested(before, now, kept, i);
        }
        var removeBps := PlanRemoveBps(target, Some(observed[i]));
        assert (requests + [removeBps.value])[..i] == requests;
        requests := requests + [removeBps.value];
      }
    }
  }
}
