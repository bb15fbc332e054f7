/** Suppression of duplicate WebSocket notifications: a bounded set of signatures, oldest out first. */
module SignatureDedup {

  const CAPACITY: nat := 1000

  /** Position of the first empty signature, or the length if there is none. */
  function FirstEmpty(admitted: seq<string>): (i: nat)
    ensures i <= |admitted|
    ensures forall k :: 0 <= k < i ==> admitted[k] != ""
    ensures i < |admitted| ==> admitted[i] == ""
  {
    if admitted == [] then 0
    else
      var init := admitted[..|admitted| - 1];
      if FirstEmpty(init) < |init| then FirstEmpty(init)
      else if admitted[|admitted| - 1] == "" then |init| else |admitted|
  }

  /** Where the remembered part of the history begins. */
  function WindowStart(admitted: seq<string>): (i: nat)
    ensures i <= |admitted|
  {
    var byCapacity := if |admitted| > CAPACITY then |admitted| - CAPACITY else 0;
    if FirstEmpty(admitted) < byCapacity then FirstEmpty(admitted) else byCapacity
  }

  /** The set is the last 1000 admitted signatures exactly while no empty one has aged out: the
      eviction skips an empty signature, and from then on nothing is evicted. */
  lemma WindowIsLastThousand(admitted: seq<string>)
    ensures
      var byCapacity := if |admitted| > 1000 then |admitted| - 1000 else 0;
      admitted[WindowStart(admitted)..] == admitted[byCapacity..] <==>
        forall k :: 0 <= k < byCapacity ==> admitted[k] != ""
  {
    var byCapacity := if |admitted| > CAPACITY then |admitted| - CAPACITY else 0;
    var e := FirstEmpty(admitted);
    if e < byCapacity {
      assert |admitted[WindowStart(admitted)..]| > |admitted[byCapacity..]|;
      assert admitted[e] == "";
    }
  }

  /** One more signature: the oldest one goes out, unless it is empty. */
  lemma WindowAfter(admitted: seq<string>, last: string)
    ensures
      var remembered := admitted[WindowStart(admitted)..] + [last];
      (admitted + [last])[WindowStart(admitted + [last])..] ==
        if |remembered| > CAPACITY && remembered[0] != "" then remembered[1..] else remembered
  {
    var longer := admitted + [last];
    assert longer[..|longer| - 1] == admitted;
    assert longer[WindowStart(admitted)..] == admitted[WindowStart(admitted)..] + [last];
  }

  /** The signatures a stream of notifications gets through, in order. */
  function AdmittedOf(stream: seq<string>): seq<string>
    decreases |stream|
  {
    if stream == [] then []
    else
      var before, last := AdmittedOf(stream[..|stream| - 1]), stream[|stream| - 1];
      if last in before[WindowStart(before)..] then before else before + [last]
  }

  /** Between two admissions of the same signature at least 1000 others were admitted. */
  ghost predicate Spaced(admitted: seq<string>) {
    forall i, j :: 0 <= i < j < |admitted| && admitted[i] == admitted[j] ==> j - i - 1 >= 1000
  }

  lemma SpacedAppend(admitted: seq<string>, last: string)
    requires Spaced(admitted) && last !in admitted[WindowStart(admitted)..]
    ensures Spaced(admitted + [last])
  {
    var start, longer := WindowStart(admitted), admitted + [last];
    forall i | start <= i < |admitted| ensures admitted[i] != last {
      assert admitted[start..][i - start] == admitted[i];
    }
    forall i, j | 0 <= i < j < |longer| && longer[i] == longer[j] ensures j - i - 1 >= 1000 {
      assert longer[i] == admitted[i];
      if j < |admitted| { assert longer[j] == admitted[j]; }
    }
  }

  lemma {:induction false} ReadmissionNeedsAThousandOthers(stream: seq<string>)
    ensures Spaced(AdmittedOf(stream))
    decreases |stream|
  {
    if stream != [] {
      var before, last := AdmittedOf(stream[..|stream| - 1]), stream[|stream| - 1];
      ReadmissionNeedsAThousandOthers(stream[..|stream| - 1]);
      if last !in before[WindowStart(before)..] { SpacedAppend(before, last); }
    }
  }

  /** The next signature is admitted exactly when it is not among the last 1000 admitted, as long as
      no empty one has aged out. */
  lemma AdmittedExactly(stream: seq<string>, signature: string)
    requires forall k :: 0 <= k < |AdmittedOf(stream)| - 1000 ==> AdmittedOf(stream)[k] != ""
    ensures
      var before := AdmittedOf(stream);
      var start := if |before| > 1000 then |before| - 1000 else 0;
      AdmittedOf(stream + [signature]) == if signature in before[start..] then before else before + [signature]
  {
    WindowIsLastThousand(AdmittedOf(stream));
    assert (stream + [signature])[..|stream|] == stream;
  }

  /** Nothing gets lost for good: every signature is admitted at least once, and nothing else is. */
  lemma {:induction false} EverySignatureIsAdmitted(stream: seq<string>, signature: string)
    ensures signature in stream <==> signature in AdmittedOf(stream)
    decreases |stream|
  {
    if stream != [] {
      var init, last := stream[..|stream| - 1], stream[|stream| - 1];
      EverySignatureIsAdmitted(init, signature);
      assert stream == init + [last];
      var before := AdmittedOf(init);
      assert last in before[WindowStart(before)..] ==> last in before;
    }
  }

  /** A stream without duplicates is admitted whole. */
  lemma {:induction false} DistinctStreamIsAdmittedWhole(stream: seq<string>)
    requires forall i, j :: 0 <= i < j < |stream| ==> stream[i] != stream[j]
    ensures AdmittedOf(stream) == stream
    decreases |stream|
  {
    if stream != [] {
      var init, last := stream[..|stream| - 1], stream[|stream| - 1];
      DistinctStreamIsAdmittedWhole(init);
      forall i | 0 <= i < |init| ensures init[i] != last { assert stream[i] != stream[|stream| - 1]; }
      assert stream == init + [last];
    }
  }

  class Dedup {
    var processed: seq<string> // insertion-ordered set
    ghost var stream: seq<string>

    ghost predicate Valid()
      reads this
    {
      processed == AdmittedOf(stream)[WindowStart(AdmittedOf(stream))..]
    }

    constructor ()
      ensures Valid() && stream == []
    {
      processed, stream := [], [];
    }

    /** Handles one notification: admitted iff the bounded set does not remember it. */
    method OnSignature(signature: string) returns (isNew: bool)
      requires Valid()
      modifies this
      ensures Valid() && stream == old(stream) + [signature]
      ensures isNew <==> signature !in old(processed)
      ensures !isNew ==> processed == old(processed)
      ensures isNew ==>
        var grown := old(processed) + [signature];
        processed == if |grown| > 1000 && grown[0] != "" then grown[1..] else grown
      ensures AdmittedOf(stream) == if isNew then AdmittedOf(old(stream)) + [signature] else AdmittedOf(old(stream))
    {
      WindowAfter(AdmittedOf(stream), signature);
      stream := stream + [signature];
      assert stream[..|stream| - 1] == old(stream);
      if signature in processed { return false; }
      processed := processed + [signature];
      if |processed| > CAPACITY {
        var first := processed[0];
        if first != "" { processed := processed[1..]; }
      }
      return true;
    }
  }
}
