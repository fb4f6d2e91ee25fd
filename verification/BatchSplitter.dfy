/**
  Splitting a log batch below the request size limit.

  The client encodes a batch, halves it when the encoding is too large, and
  sends the halves left to right.  SplitPlan is the sequence of requests that
  this recursion attempts when every request succeeds; a run that fails stops
  after some prefix of it.
 */
module BatchSplitter {

  /** What encoding a part yields: an encoder error, or so many bytes. */
  datatype Encoding = EncodeError | Encoded(size: nat)

  /** A request: the entries of the batch from lo to hi. */
  datatype Part = Part(lo: nat, hi: nat)

  /** The requests in order, and whether they reach the end of the batch. */
  datatype Plan = Plan(parts: seq<Part>, complete: bool)

  /** 3 MiB, which leaves room below the backend's 4 MiB request limit. */
  const MAX_REQUEST: nat := 3 * 1024 * 1024

  ghost predicate Fits<T>(encode: seq<T> -> Encoding, entries: seq<T>) {
    encode(entries).Encoded? && encode(entries).size <= MAX_REQUEST
  }

  ghost function SplitPlan<T>(encode: seq<T> -> Encoding, batch: seq<T>, lo: nat, hi: nat): Plan
    requires lo <= hi <= |batch|
    decreases hi - lo
  {
    if Fits(encode, batch[lo..hi]) then Plan([Part(lo, hi)], true)
    else if encode(batch[lo..hi]).EncodeError? || hi - lo < 2 then Plan([], false)
    else
      var middle := lo + (hi - lo) / 2;
      var left := SplitPlan(encode, batch, lo, middle);
      if !left.complete then left
      else
        var right := SplitPlan(encode, batch, middle, hi);
        Plan(left.parts + right.parts, right.complete)
  }

  /** Where a sequence of parts starting at lo ends. */
  ghost function End(parts: seq<Part>, lo: nat): nat {
    if parts == [] then lo else parts[|parts| - 1].hi
  }

  /** The parts accepted by an attempt are the first requests of the plan, and
      all of it when the attempt succeeded. */
  ghost predicate Realizes<T>(encode: seq<T> -> Encoding, batch: seq<T>, lo: nat, hi: nat, parts: seq<Part>,
      accepted: nat, ok: bool)
    requires lo <= hi <= |batch|
  {
    var plan := SplitPlan(encode, batch, lo, hi);
    && parts <= plan.parts
    && lo <= accepted <= hi
    && accepted == End(parts, lo)
    && (ok ==> plan.complete && parts == plan.parts && accepted == hi)
  }

  lemma RealizesNothing<T>(encode: seq<T> -> Encoding, batch: seq<T>, lo: nat, hi: nat)
    requires lo <= hi <= |batch|
    ensures Realizes(encode, batch, lo, hi, [], lo, false)
  {
  }

  lemma RealizesOne<T>(encode: seq<T> -> Encoding, batch: seq<T>, lo: nat, hi: nat)
    requires lo <= hi <= |batch|
    ensures Fits(encode, batch[lo..hi]) ==>
      Realizes(encode, batch, lo, hi, [Part(lo, hi)], hi, true) &&
      Realizes(encode, batch, lo, hi, [Part(lo, hi)], hi, false)
  {
  }

  /** An attempt at a batch that has to be halved: the left half, and once that
      succeeded the right one. */
  lemma RealizesHalves<T>(encode: seq<T> -> Encoding, batch: seq<T>, lo: nat, hi: nat, left: seq<Part>,
      right: seq<Part>, accepted: nat, ok: bool)
    requires lo + 2 <= hi <= |batch|
    requires encode(batch[lo..hi]).Encoded? && !Fits(encode, batch[lo..hi])
    ensures
      var middle := lo + (hi - lo) / 2;
      && (Realizes(encode, batch, lo, middle, left, accepted, false) ==>
        Realizes(encode, batch, lo, hi, left, accepted, false))
      && (Realizes(encode, batch, lo, middle, left, middle, true) &&
          Realizes(encode, batch, middle, hi, right, accepted, ok) ==>
            Realizes(encode, batch, lo, hi, left + right, accepted, ok))
  {
  }

  /** The parts are nonempty and follow each other without gap or overlap. */
  ghost predicate Consecutive(parts: seq<Part>, lo: nat) {
    parts == [] ||
    (var shorter, last := parts[..|parts| - 1], parts[|parts| - 1];
     Consecutive(shorter, lo) && last.lo == End(shorter, lo) && last.lo < last.hi)
  }

  lemma {:induction false} ConsecutiveConcat(left: seq<Part>, right: seq<Part>, lo: nat)
    requires Consecutive(left, lo) && Consecutive(right, End(left, lo))
    ensures Consecutive(left + right, lo) && End(left + right, lo) == End(right, End(left, lo))
  {
    if right == [] {
      assert left + right == left;
    } else {
      var shorter := right[..|right| - 1];
      ConsecutiveConcat(left, shorter, lo);
      assert (left + right)[..|left + right| - 1] == left + shorter;
    }
  }

  /** Every part lies inside the batch and encodes to a request within the limit. */
  ghost predicate AllFit<T>(encode: seq<T> -> Encoding, batch: seq<T>, parts: seq<Part>) {
    forall i :: 0 <= i < |parts| ==>
      parts[i].lo <= parts[i].hi <= |batch| && Fits(encode, batch[parts[i].lo..parts[i].hi])
  }

  /** What a plan for the entries from lo to hi promises: the requests partition
      a prefix of them in order, each within the limit, and reach hi exactly when
      the plan is complete. */
  ghost predicate Partitions<T>(encode: seq<T> -> Encoding, batch: seq<T>, plan: Plan, lo: nat, hi: nat) {
    && Consecutive(plan.parts, lo)
    && AllFit(encode, batch, plan.parts)
    && lo <= End(plan.parts, lo) <= hi
    && (plan.complete <==> End(plan.parts, lo) == hi)
  }

  lemma PartitionsJoin<T>(encode: seq<T> -> Encoding, batch: seq<T>, left: Plan, right: Plan, lo: nat, middle: nat,
      hi: nat)
    requires Partitions(encode, batch, left, lo, middle) && left.complete
    requires Partitions(encode, batch, right, middle, hi)
    ensures Partitions(encode, batch, Plan(left.parts + right.parts, right.complete), lo, hi)
  {
    ConsecutiveConcat(left.parts, right.parts, lo);
  }

  lemma OnePart(lo: nat, hi: nat)
    requires lo < hi
    ensures Consecutive([Part(lo, hi)], lo) && End([Part(lo, hi)], lo) == hi
  {
    var parts := [Part(lo, hi)];
    assert parts[..|parts| - 1] == [];
    assert Consecutive([], lo) && End([], lo) == lo;
  }

  lemma {:induction false} PlanPartitions<T>(encode: seq<T> -> Encoding, batch: seq<T>, lo: nat, hi: nat)
    requires lo < hi <= |batch|
    ensures Partitions(encode, batch, SplitPlan(encode, batch, lo, hi), lo, hi)
    decreases hi - lo
  {
    hide Fits;
    var middle := lo + (hi - lo) / 2;
    if Fits(encode, batch[lo..hi]) {
      OnePart(lo, hi);
    } else if encode(batch[lo..hi]).Encoded? && 2 <= hi - lo {
      var left := SplitPlan(encode, batch, lo, middle);
      PlanPartitions(encode, batch, lo, middle);
      if left.complete {
        var right := SplitPlan(encode, batch, middle, hi);
        PlanPartitions(encode, batch, middle, hi);
        PartitionsJoin(encode, batch, left, right, lo, middle, hi);
      }
    }
  }

  /** No request is larger than 3 MiB. */
  lemma RequestsFit<T>(encode: seq<T> -> Encoding, batch: seq<T>, lo: nat, hi: nat, i: nat)
    requires lo < hi <= |batch| && i < |SplitPlan(encode, batch, lo, hi).parts|
    ensures
      var p := SplitPlan(encode, batch, lo, hi).parts[i];
      p.lo <= p.hi <= |batch| && encode(batch[p.lo..p.hi]).Encoded? &&
      encode(batch[p.lo..p.hi]).size <= 3 * 1024 * 1024
  {
    PlanPartitions(encode, batch, lo, hi);
  }

  /** The entries of the parts, put back together in the order sent. */
  ghost function Joined<T>(batch: seq<T>, parts: seq<Part>): seq<T>
    requires forall i :: 0 <= i < |parts| ==> parts[i].lo <= parts[i].hi <= |batch|
  {
    if parts == [] then []
    else
      var last := parts[|parts| - 1];
      Joined(batch, parts[..|parts| - 1]) + batch[last.lo..last.hi]
  }

  /** Any prefix of consecutive requests carries exactly a prefix of the batch:
      nothing is dropped, repeated or reordered by splitting. */
  lemma {:induction false} PartsJoinToPrefix<T>(batch: seq<T>, parts: seq<Part>, lo: nat)
    requires Consecutive(parts, lo) && lo <= |batch|
    requires forall i :: 0 <= i < |parts| ==> parts[i].lo <= parts[i].hi <= |batch|
    ensures lo <= End(parts, lo) <= |batch|
    ensures Joined(batch, parts) == batch[lo..End(parts, lo)]
  {
    if parts != [] {
      var shorter, last := parts[..|parts| - 1], parts[|parts| - 1];
      PartsJoinToPrefix(batch, shorter, lo);
      assert batch[lo..last.lo] + batch[last.lo..last.hi] == batch[lo..last.hi];
    }
  }

  /** Prefixes of consecutive parts are consecutive, and the counts acknowledged
      after each part strictly increase. */
  lemma {:induction false} AcknowledgedIncreases(parts: seq<Part>, lo: nat, k: nat)
    requires Consecutive(parts, lo) && k < |parts|
    ensures Consecutive(parts[..k], lo)
    ensures End(parts[..k], lo) == parts[k].lo < parts[k].hi == End(parts[..k + 1], lo)
    decreases |parts|
  {
    var shorter := parts[..|parts| - 1];
    if k < |shorter| {
      AcknowledgedIncreases(shorter, lo, k);
      assert shorter[..k] == parts[..k] && shorter[..k + 1] == parts[..k + 1];
    } else {
      assert parts[..k] == shorter && parts[..k + 1] == parts;
    }
  }

  /** A plan reaches the end of the batch when no part fails to encode and every
      single entry fits. */
  lemma {:induction false} PlanCompletes<T(!new)>(encode: seq<T> -> Encoding, batch: seq<T>, lo: nat, hi: nat)
    requires lo < hi <= |batch|
    requires forall part :: encode(part).Encoded?
    requires forall i :: lo <= i < hi ==> encode([batch[i]]).size <= 3 * 1024 * 1024
    ensures SplitPlan(encode, batch, lo, hi).complete
    decreases hi - lo
  {
    if hi - lo < 2 {
      assert batch[lo..hi] == [batch[lo]];
    } else {
      var middle := lo + (hi - lo) / 2;
      PlanCompletes(encode, batch, lo, middle);
      PlanCompletes(encode, batch, middle, hi);
    }
  }

  /** An entry that fits in no request is never passed: every entry behind it
      waits, on every attempt. */
  lemma {:induction false} OversizedEntryBlocks<T>(encode: seq<T> -> Encoding, batch: seq<T>, lo: nat, hi: nat,
      bad: nat)
    requires lo <= bad < hi <= |batch|
    requires forall i, j :: 0 <= i <= bad < j <= |batch| ==> !Fits(encode, batch[i..j])
    ensures
      var plan := SplitPlan(encode, batch, lo, hi);
      !plan.complete && End(plan.parts, lo) <= bad
    decreases hi - lo
  {
    assert !Fits(encode, batch[lo..hi]);
    if encode(batch[lo..hi]).Encoded? && 2 <= hi - lo {
      var middle := lo + (hi - lo) / 2;
      var left := SplitPlan(encode, batch, lo, middle);
      if bad < middle {
        OversizedEntryBlocks(encode, batch, lo, middle, bad);
      } else {
        PlanPartitions(encode, batch, lo, middle);
        if left.complete {
          var right := SplitPlan(encode, batch, middle, hi);
          OversizedEntryBlocks(encode, batch, middle, hi, bad);
          assert End(left.parts + right.parts, lo) == End(right.parts, middle);
        }
      }
    }
  }
}
