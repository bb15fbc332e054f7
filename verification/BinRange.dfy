/** Opening a large Meteora position: which bin arrays it needs and how it is extended to its range. */
module BinRange {

  const MAX_RESIZE := 91
  const MAX_BIN_ARRAY_SIZE := 512
  const LARGE_BIN_THRESHOLD := 70

  /** `Math.trunc(a / 512)`. */
  function Trunc(a: int): int {
    if a >= 0 then a / MAX_BIN_ARRAY_SIZE else -(-a / MAX_BIN_ARRAY_SIZE)
  }

  /** The array that holds a bin: floor division, for negative bins too. */
  function BinIdToArrayIdx(id: int): (idx: int)
    ensures idx * 512 <= id < (idx + 1) * 512
  {
    var div := Trunc(id);
    var mod := id - div * MAX_BIN_ARRAY_SIZE; // JavaScript's id % 512, which has the sign of id
    if id < 0 && mod != 0 then div - 1 else div
  }

  /** Some bin of the range lies in array `idx`. */
  ghost predicate Needed(lowerBinId: int, upperBinId: int, idx: int) {
    exists bin :: lowerBinId <= bin <= upperBinId && BinIdToArrayIdx(bin) == idx
  }

  lemma NeededIsContiguous(lowerBinId: int, upperBinId: int, idx: int)
    requires lowerBinId <= upperBinId
    ensures Needed(lowerBinId, upperBinId, idx) <==>
      BinIdToArrayIdx(lowerBinId) <= idx <= BinIdToArrayIdx(upperBinId)
  {
    if BinIdToArrayIdx(lowerBinId) <= idx <= BinIdToArrayIdx(upperBinId) {
      var first := idx * MAX_BIN_ARRAY_SIZE;
      assert BinIdToArrayIdx(if first < lowerBinId then lowerBinId else first) == idx;
    }
  }

  /** Where the position ends before extension `i`. */
  function EndBefore(start: int, ends: seq<int>, i: nat): int
    requires i <= |ends|
  {
    if i == 0 then start else ends[i - 1]
  }

  /** Lists every array that holds a bin of the range, each once and in order. */
  method BinArrayIndexes(lowerBinId: int, upperBinId: int) returns (indexes: seq<int>)
    requires lowerBinId <= upperBinId
    ensures forall i, j :: 0 <= i < j < |indexes| ==> indexes[i] < indexes[j]
    ensures forall idx :: idx in indexes <==> Needed(lowerBinId, upperBinId, idx)
  {
    var lowerIdx, upperIdx := BinIdToArrayIdx(lowerBinId), BinIdToArrayIdx(upperBinId);
    indexes := [];
    for i := lowerIdx to upperIdx + 1
      invariant |indexes| == i - lowerIdx && forall k :: 0 <= k < |indexes| ==> indexes[k] == lowerIdx + k
    {
      indexes := indexes + [i];
    }
    forall idx ensures idx in indexes <==> Needed(lowerBinId, upperBinId, idx) {
      NeededIsContiguous(lowerBinId, upperBinId, idx);
      if lowerIdx <= idx <= upperIdx { assert indexes[idx - lowerIdx] == idx; }
    }
  }

  /** The multi-transaction path: an initial width, then extensions of at most 91 bins, ending
      exactly at the upper bin after the fewest extensions that can reach it. */
  method PlanExtensions(lowerBinId: int, upperBinId: int) returns (initialWidth: int, ends: seq<int>)
    requires upperBinId - lowerBinId + 1 > LARGE_BIN_THRESHOLD
    ensures initialWidth == 70
    ensures |ends| > 0 && ends[|ends| - 1] == upperBinId
    ensures forall i :: 0 <= i < |ends| ==>
      1 <= ends[i] - EndBefore(lowerBinId + 69, ends, i) <= 91
    ensures (|ends| - 1) * 91 < upperBinId - lowerBinId + 1 - 70 <= |ends| * 91
  {
    var binCount := upperBinId - lowerBinId + 1;
    initialWidth := if binCount < LARGE_BIN_THRESHOLD then binCount else LARGE_BIN_THRESHOLD;
    var currentEnd := lowerBinId + initialWidth - 1;
    ends := [];
    while currentEnd < upperBinId
      invariant currentEnd <= upperBinId
      invariant currentEnd == EndBefore(lowerBinId + initialWidth - 1, ends, |ends|)
      invariant currentEnd < upperBinId ==> currentEnd == lowerBinId + initialWidth - 1 + |ends| * MAX_RESIZE
      invariant currentEnd == upperBinId ==>
        |ends| > 0 && (|ends| - 1) * MAX_RESIZE < binCount - LARGE_BIN_THRESHOLD <= |ends| * MAX_RESIZE
      invariant forall i :: 0 <= i < |ends| ==>
        1 <= ends[i] - EndBefore(lowerBinId + initialWidth - 1, ends, i) <= MAX_RESIZE
    {
      currentEnd := if currentEnd + MAX_RESIZE < upperBinId then currentEnd + MAX_RESIZE else upperBinId;
      ends := ends + [currentEnd];
    }
  }
}
