/** The decision step of the rice-disease service's `predict` handler: from the
    classifier's probability vector to the response record. The top-1 class is
    `np.argmax` (the first index holding the maximum), its confidence is the
    maximum times 100, the top-3 list is `argsort()[-3:][::-1]`, labels come
    from a five-entry catalog with a fallback, and an inclusive 75.0 threshold
    chooses between "success" and "low_confidence".

    Probabilities are `real`s. `np.argsort`'s default sort is not stable, so
    the ascending index order it returns is a parameter of `Decide`, constrained
    only by `IsArgsort`; nothing here fixes the order among tied entries. The
    `"%.1f"` formatting is the opaque `format` parameter. */
module Decision {

  /** `class_names` of `predict`. */
  const ClassNames: map<int, string> := map[
    0 := "โรคใบจุดสีน้ำตาล (Brown Spot)",
    1 := "โรคใบวงสีน้ำตาล (Leaf Scald)",
    2 := "โรคไหม้ (Rice Blast)",
    3 := "โรคใบสีส้ม (Rice Tungro)",
    4 := "โรคกาบใบแห้ง (Sheath Blight)"
  ]

  /** The fallback of `class_names.get(index, ...)` ("unknown disease"). */
  const UnknownClass := "ไม่ทราบโรค"

  /** The label reported below the threshold ("cannot be determined"). */
  const Undetermined := "ไม่สามารถระบุได้"

  const Threshold := 75.0
  const TopN := 3

  const StatusSuccess := "success"
  const StatusLowConfidence := "low_confidence"
  const SuccessMessage := "การวิเคราะห์สำเร็จ"
  /** The low-confidence message, with `{threshold}` rendered as `75.0`. */
  const LowConfidenceMessage := "ความมั่นใจในการทำนายต่ำกว่า 75.0% กรุณาถ่ายรูปใหม่ที่ชัดเจนกว่า"

  /** One element of `top_3_predictions`. */
  datatype Entry = Entry(className: string, confidence: string, confidenceValue: real)

  /** The record `predict` returns. */
  datatype Prediction = Prediction(
    predictedClass: string,
    confidenceScore: string,
    confidenceValue: real,
    top3: seq<Entry>,
    message: string,
    status: string)

  /** `class_names.get(index, "ไม่ทราบโรค")`: the catalog label for indices 0 to 4,
      the unknown-class placeholder for every other index. */
  function Label(i: int): (s: string)
    ensures 0 <= i < 5 ==> i in ClassNames && s == ClassNames[i]
    ensures !(0 <= i < 5) ==> s == UnknownClass
  {
    if i in ClassNames then ClassNames[i] else UnknownClass
  }

  /** `np.argmax`: the lowest index holding the maximum probability. */
  function ArgMax(p: seq<real>): (k: nat)
    requires |p| > 0
    ensures k < |p|
    ensures forall j :: 0 <= j < |p| ==> p[j] <= p[k]
    ensures forall j :: 0 <= j < k ==> p[j] < p[k]
  {
    if |p| == 1 then 0
    else
      var k := ArgMax(p[..|p| - 1]);
      if p[|p| - 1] > p[k] then |p| - 1 else k
  }

  /** `order` is an ascending argsort of `p`: a permutation of the indices of `p`
      along which the probabilities never decrease. Ties may come in any order. */
  predicate IsArgsort(p: seq<real>, order: seq<int>)
  {
    && |order| == |p|
    && (forall k :: 0 <= k < |order| ==> 0 <= order[k] < |p|)
    && (forall k, l :: 0 <= k < l < |order| ==> order[k] != order[l])
    && (forall i :: 0 <= i < |p| ==> i in order)
    && (forall k, l :: 0 <= k < l < |order| ==> p[order[k]] <= p[order[l]])
  }

  function Reverse(s: seq<int>): (r: seq<int>)
  {
    seq(|s|, k requires 0 <= k < |s| => s[|s| - 1 - k])
  }

  /** `order[-n:][::-1]`: the last `n` indices of the ascending order (all of
      them when there are fewer), largest first. */
  function TopIndices(order: seq<int>, n: nat): seq<int>
  {
    var m := if n <= |order| then n else |order|;
    Reverse(order[|order| - m..])
  }

  /** `top_n_predictions`: one entry per listed index, with its label, its
      formatted confidence and its confidence `p[index] * 100`. */
  function TopEntries(p: seq<real>, indices: seq<int>, format: real -> string): seq<Entry>
    requires forall k :: 0 <= k < |indices| ==> 0 <= indices[k] < |p|
  {
    seq(|indices|, k requires 0 <= k < |indices| =>
      var conf := p[indices[k]] * 100.0;
      Entry(Label(indices[k]), format(conf) + "%", conf))
  }

  /** The result-building block of `predict`. Confidence value, confidence text
      and top-3 list are the same in both branches; the status is "success"
      exactly when the confidence reaches the threshold (inclusively), and only
      then is the top-1 label reported. */
  function Decide(p: seq<real>, order: seq<int>, format: real -> string): (r: Prediction)
    requires |p| > 0 && IsArgsort(p, order)
    ensures r.confidenceValue == p[ArgMax(p)] * 100.0
    ensures r.confidenceScore == format(r.confidenceValue) + "%"
    ensures r.top3 == TopEntries(p, TopIndices(order, TopN), format)
    ensures r.status == StatusSuccess <==> r.confidenceValue >= Threshold
    ensures r.status == StatusSuccess ==>
      r.predictedClass == Label(ArgMax(p)) && r.message == SuccessMessage
    ensures r.status != StatusSuccess ==>
      r.status == StatusLowConfidence && r.predictedClass == Undetermined && r.message == LowConfidenceMessage
  {
    var top1 := ArgMax(p);
    var confidence := p[top1] * 100.0;
    var top := TopIndices(order, TopN);
    var entries := TopEntries(p, top, format);
    if confidence >= Threshold then
      Prediction(Label(top1), format(confidence) + "%", confidence, entries, SuccessMessage, StatusSuccess)
    else
      Prediction(Undetermined, format(confidence) + "%", confidence, entries, LowConfidenceMessage, StatusLowConfidence)
  }

  /** The k-th listed index is the k-th from the end of the ascending order. */
  lemma TopIndicesAt(order: seq<int>, n: nat)
    ensures var t := TopIndices(order, n);
      && |t| == (if n <= |order| then n else |order|)
      && forall k :: 0 <= k < |t| ==> t[k] == order[|order| - 1 - k]
  {
  }

  /** Every index in the last `min(n, N)` positions of the order is listed. */
  lemma TopIndicesListHighRanks(order: seq<int>, n: nat)
    ensures var t := TopIndices(order, n);
      forall a :: |order| - |t| <= a < |order| ==> order[a] in t
  {
    TopIndicesAt(order, n);
    var t := TopIndices(order, n);
    forall a | |order| - |t| <= a < |order| ensures order[a] in t {
      assert t[|order| - 1 - a] == order[a];
    }
  }

  /** In an ascending argsort, every index sitting before position `pos` has a
      probability no larger than the one at `pos`. */
  lemma ArgsortBelow(p: seq<real>, order: seq<int>, j: int, pos: int) returns (at: int)
    requires IsArgsort(p, order) && 0 <= j < |p| && 0 <= pos < |order|
    ensures 0 <= at < |order| && order[at] == j
    ensures at <= pos ==> p[j] <= p[order[pos]]
  {
    assert j in order;
    at :| 0 <= at < |order| && order[at] == j;
  }

  /** The listed indices are distinct, in range, and in non-increasing order of
      probability. */
  lemma TopIndicesSorted(p: seq<real>, order: seq<int>, n: nat)
    requires IsArgsort(p, order)
    ensures var t := TopIndices(order, n);
      && (forall k :: 0 <= k < |t| ==> 0 <= t[k] < |p|)
      && (forall k, l :: 0 <= k < l < |t| ==> t[k] != t[l])
      && (forall k, l :: 0 <= k < l < |t| ==> p[t[k]] >= p[t[l]])
  {
    TopIndicesAt(order, n);
    var t := TopIndices(order, n);
    forall k, l | 0 <= k < l < |t| ensures t[k] != t[l] && p[t[k]] >= p[t[l]] {
      assert t[k] == order[|order| - 1 - k] && t[l] == order[|order| - 1 - l];
    }
  }

  /** No index left out of the list has a larger probability than the last one
      listed, and the first one listed holds the maximum. */
  lemma TopIndicesDominate(p: seq<real>, order: seq<int>, n: nat)
    requires |p| > 0 && IsArgsort(p, order) && n > 0
    ensures var t := TopIndices(order, n);
      && |t| > 0
      && p[t[0]] == p[ArgMax(p)]
      && (forall j :: 0 <= j < |p| && j !in t ==> p[j] <= p[t[|t| - 1]])
  {
    TopIndicesAt(order, n);
    TopIndicesLastDominates(p, order, n);
    TopIndicesFirstIsMax(p, order, n);
  }

  lemma TopIndicesLastDominates(p: seq<real>, order: seq<int>, n: nat)
    requires |p| > 0 && IsArgsort(p, order) && n > 0
    ensures var t := TopIndices(order, n);
      |t| > 0 && forall j :: 0 <= j < |p| && j !in t ==> p[j] <= p[t[|t| - 1]]
  {
    var t := TopIndices(order, n);
    var N := |p|;
    TopIndicesAt(order, n);
    TopIndicesListHighRanks(order, n);
    var m := |t|;
    assert t[m - 1] == order[N - m];
    forall j | 0 <= j < N && j !in t
      ensures p[j] <= p[order[N - m]]
    {
      var at := ArgsortBelow(p, order, j, N - m);
    }
  }

  lemma TopIndicesFirstIsMax(p: seq<real>, order: seq<int>, n: nat)
    requires |p| > 0 && IsArgsort(p, order) && n > 0
    ensures var t := TopIndices(order, n);
      |t| > 0 && p[t[0]] == p[ArgMax(p)]
  {
    var t := TopIndices(order, n);
    TopIndicesAt(order, n);
    var at := ArgsortBelow(p, order, ArgMax(p), |p| - 1);
    assert t[0] == order[|p| - 1];
  }

  /** The top-n list: `min(n, N)` distinct in-range indices with non-increasing
      probabilities, the first of them holding the maximum, and no index left out
      has a larger probability than the last one listed. */
  lemma TopIndicesRanked(p: seq<real>, order: seq<int>, n: nat)
    requires |p| > 0 && IsArgsort(p, order) && n > 0
    ensures var t := TopIndices(order, n);
      && |t| == (if n <= |p| then n else |p|)
      && (forall k :: 0 <= k < |t| ==> 0 <= t[k] < |p|)
      && (forall k, l :: 0 <= k < l < |t| ==> t[k] != t[l])
      && (forall k, l :: 0 <= k < l < |t| ==> p[t[k]] >= p[t[l]])
      && p[t[0]] == p[ArgMax(p)]
      && (forall j :: 0 <= j < |p| && j !in t ==> p[j] <= p[t[|t| - 1]])
  {
    TopIndicesAt(order, n);
    TopIndicesSorted(p, order, n);
    TopIndicesDominate(p, order, n);
  }

  /** Both the top-1 label and every top-3 label go through the same lookup, so
      an index outside the catalog yields the placeholder for that entry only. */
  lemma TopEntriesLabels(p: seq<real>, order: seq<int>, format: real -> string)
    requires |p| > 0 && IsArgsort(p, order)
    ensures var r := Decide(p, order, format);
      var t := TopIndices(order, TopN);
      && |r.top3| == |t|
      && (forall k :: 0 <= k < |t| ==>
            r.top3[k].className == Label(t[k]) && r.top3[k].confidenceValue == p[t[k]] * 100.0)
      && (forall k, l :: 0 <= k < l < |t| ==> r.top3[k].confidenceValue >= r.top3[l].confidenceValue)
      && (r.status == StatusSuccess ==> r.predictedClass == Label(ArgMax(p)))
  {
    TopIndicesRanked(p, order, TopN);
  }

  /** The reference ascending argsort: indices inserted one by one after every
      index with a smaller or equal probability. */
  function InsertByValue(p: seq<real>, s: seq<int>, i: int): seq<int>
    requires forall k :: 0 <= k < |s| ==> 0 <= s[k] < |p|
    requires 0 <= i < |p|
  {
    if s == [] then [i]
    else if p[s[0]] <= p[i] then [s[0]] + InsertByValue(p, s[1..], i)
    else [i] + s
  }

  predicate Ascending(p: seq<real>, s: seq<int>)
    requires forall k :: 0 <= k < |s| ==> 0 <= s[k] < |p|
  {
    forall k, l :: 0 <= k < l < |s| ==> p[s[k]] <= p[s[l]]
  }

  lemma {:induction false} InsertByValueKeepsOrder(p: seq<real>, s: seq<int>, i: int)
    requires forall k :: 0 <= k < |s| ==> 0 <= s[k] < |p|
    requires 0 <= i < |p|
    requires Ascending(p, s)
    ensures var r := InsertByValue(p, s, i);
      && |r| == |s| + 1
      && (forall x :: x in r <==> x in s || x == i)
      && (forall k :: 0 <= k < |r| ==> 0 <= r[k] < |p|)
      && Ascending(p, r)
      && (|s| > 0 ==> r[0] == s[0] || r[0] == i)
  {
    if s != [] && p[s[0]] <= p[i] {
      var tail := s[1..];
      assert forall x :: x in s <==> x == s[0] || x in tail;
      InsertByValueKeepsOrder(p, tail, i);
      var rest := InsertByValue(p, tail, i);
      assert InsertByValue(p, s, i) == [s[0]] + rest;
      forall l | 0 <= l < |rest| ensures p[s[0]] <= p[rest[l]] {
        assert rest[l] in rest;
        if rest[l] != i {
          var q :| 0 <= q < |tail| && tail[q] == rest[l];
          assert s[q + 1] == rest[l];
        }
      }
    }
  }

  lemma {:induction false} InsertByValueKeepsDistinct(p: seq<real>, s: seq<int>, i: int)
    requires forall k :: 0 <= k < |s| ==> 0 <= s[k] < |p|
    requires 0 <= i < |p| && i !in s
    requires forall k, l :: 0 <= k < l < |s| ==> s[k] != s[l]
    ensures var r := InsertByValue(p, s, i);
      forall k, l :: 0 <= k < l < |r| ==> r[k] != r[l]
  {
    if s != [] && p[s[0]] <= p[i] {
      var tail := s[1..];
      InsertByValueKeepsDistinct(p, tail, i);
      var rest := InsertByValue(p, tail, i);
      InsertByValueMembers(p, tail, i);
      assert s[0] !in tail;
      assert s[0] !in rest;
    }
  }

  lemma {:induction false} InsertByValueMembers(p: seq<real>, s: seq<int>, i: int)
    requires forall k :: 0 <= k < |s| ==> 0 <= s[k] < |p|
    requires 0 <= i < |p|
    ensures var r := InsertByValue(p, s, i);
      |r| == |s| + 1 && forall x :: x in r <==> x in s || x == i
  {
    if s != [] && p[s[0]] <= p[i] {
      var tail := s[1..];
      assert forall x :: x in s <==> x == s[0] || x in tail;
      InsertByValueMembers(p, tail, i);
    }
  }

  /** The reference argsort of the first `n` indices. */
  function InsertionArgsort(p: seq<real>, n: nat): (r: seq<int>)
    requires n <= |p|
    ensures |r| == n
    ensures forall k :: 0 <= k < |r| ==> 0 <= r[k] < n
    ensures forall x :: x in r <==> 0 <= x < n
  {
    if n == 0 then []
    else
      var s := InsertionArgsort(p, n - 1);
      InsertByValueMembers(p, s, n - 1);
      var r := InsertByValue(p, s, n - 1);
      assert forall k :: 0 <= k < |r| ==> r[k] in r;
      r
  }

  lemma {:induction false} InsertionArgsortIsArgsortPrefix(p: seq<real>, n: nat)
    requires n <= |p|
    ensures var r := InsertionArgsort(p, n);
      Ascending(p, r) && forall k, l :: 0 <= k < l < |r| ==> r[k] != r[l]
  {
    if n > 0 {
      var s := InsertionArgsort(p, n - 1);
      InsertionArgsortIsArgsortPrefix(p, n - 1);
      assert n - 1 !in s;
      InsertByValueKeepsOrder(p, s, n - 1);
      InsertByValueKeepsDistinct(p, s, n - 1);
    }
  }

  /** Every probability vector has an ascending argsort, so `Decide` can be
      applied to any non-empty vector. */
  lemma ArgsortExists(p: seq<real>)
    ensures IsArgsort(p, InsertionArgsort(p, |p|))
  {
    InsertionArgsortIsArgsortPrefix(p, |p|);
  }

  /** The two properties of `np.argmax` determine it. */
  lemma ArgMaxIsUnique(p: seq<real>, k: int)
    requires 0 <= k < |p|
    requires forall j :: 0 <= j < |p| ==> p[j] <= p[k]
    requires forall j :: 0 <= j < k ==> p[j] < p[k]
    ensures ArgMax(p) == k
  {
  }

  /** A vector with a clear winner, [0.10, 0.81, 0.05, 0.02, 0.02]: whatever
      order argsort gives the two tied 0.02 entries, the result is "success"
      with the index-1 label, confidence 81, and top-3 indices [1, 0, 2]. */
  lemma ClearWinner(order: seq<int>, format: real -> string)
    requires IsArgsort([0.10, 0.81, 0.05, 0.02, 0.02], order)
    ensures var r := Decide([0.10, 0.81, 0.05, 0.02, 0.02], order, format);
      && r.status == StatusSuccess
      && r.predictedClass == "โรคใบวงสีน้ำตาล (Leaf Scald)"
      && r.confidenceValue == 81.0
      && TopIndices(order, TopN) == [1, 0, 2]
  {
    var p := [0.10, 0.81, 0.05, 0.02, 0.02];
    var at1 := ArgsortBelow(p, order, 1, 4);
    var at0 := ArgsortBelow(p, order, 0, 3);
    var at2 := ArgsortBelow(p, order, 2, 2);
    TopIndicesAt(order, TopN);
    ArgMaxIsUnique(p, 1);
  }

  /** A maximum of exactly 0.75 reaches the threshold: the gate is inclusive. */
  lemma ThresholdIsInclusive(order: seq<int>, format: real -> string)
    requires IsArgsort([0.75, 0.25, 0.0, 0.0, 0.0], order)
    ensures var r := Decide([0.75, 0.25, 0.0, 0.0, 0.0], order, format);
      r.status == StatusSuccess && r.predictedClass == ClassNames[0] && r.confidenceValue == 75.0
  {
    ArgMaxIsUnique([0.75, 0.25, 0.0, 0.0, 0.0], 0);
  }

  /** [0.30, 0.28, 0.20, 0.12, 0.10]: index 0 is still the computed top-1, but
      the status is "low_confidence" and the placeholder replaces its label. */
  lemma BelowThresholdHidesLabel(order: seq<int>, format: real -> string)
    requires IsArgsort([0.30, 0.28, 0.20, 0.12, 0.10], order)
    ensures ArgMax([0.30, 0.28, 0.20, 0.12, 0.10]) == 0
    ensures var r := Decide([0.30, 0.28, 0.20, 0.12, 0.10], order, format);
      && r.status == StatusLowConfidence
      && r.predictedClass == Undetermined
      && r.predictedClass != ClassNames[0]
      && r.message == LowConfidenceMessage
      && TopIndices(order, TopN) == [0, 1, 2]
      && |r.top3| == 3
      && r.top3[0].className == ClassNames[0]
      && r.top3[1].className == ClassNames[1]
      && r.top3[2].className == ClassNames[2]
  {
    var p := [0.30, 0.28, 0.20, 0.12, 0.10];
    ArgMaxIsUnique(p, 0);
    var a0 := ArgsortBelow(p, order, 0, 4);
    var a1 := ArgsortBelow(p, order, 1, 3);
    var a2 := ArgsortBelow(p, order, 2, 2);
    TopIndicesAt(order, TopN);
    TopEntriesLabels(p, order, format);
  }

  /** On a tie the lowest index wins the top-1 slot, while the top-3 list may
      start with the other tied index: the order [2, 3, 4, 0, 1] is an ascending
      argsort of [0.5, 0.5, 0.0, 0.0, 0.0] (the one a stable sort gives), and
      reversing its tail lists index 1 first. */
  lemma TieTopOneDiffersFromTopThree()
    ensures ArgMax([0.5, 0.5, 0.0, 0.0, 0.0]) == 0
    ensures IsArgsort([0.5, 0.5, 0.0, 0.0, 0.0], [2, 3, 4, 0, 1])
    ensures TopIndices([2, 3, 4, 0, 1], TopN) == [1, 0, 4]
  {
    ArgMaxIsUnique([0.5, 0.5, 0.0, 0.0, 0.0], 0);
    var order := [2, 3, 4, 0, 1];
    assert order[3] == 0 && order[4] == 1 && order[0] == 2 && order[1] == 3 && order[2] == 4;
    assert TopIndices(order, TopN) == [1, 0, 4];
  }

  /** With a sixth class the catalog does not know, [0.05, 0.05, 0.05, 0.05,
      0.0, 0.80]: the top-1 and the first top-3 entry get the placeholder, while
      the other entries keep their catalog labels. */
  lemma UnknownIndexGetsPlaceholder(order: seq<int>, format: real -> string)
    requires IsArgsort([0.05, 0.05, 0.05, 0.05, 0.0, 0.80], order)
    ensures var r := Decide([0.05, 0.05, 0.05, 0.05, 0.0, 0.80], order, format);
      && r.status == StatusSuccess
      && r.predictedClass == UnknownClass
      && |r.top3| == 3
      && r.top3[0].className == UnknownClass
      && r.top3[1].className in ClassNames.Values
      && r.top3[2].className in ClassNames.Values
  {
    var p := [0.05, 0.05, 0.05, 0.05, 0.0, 0.80];
    var at5 := ArgsortBelow(p, order, 5, 5);
    var at4 := ArgsortBelow(p, order, 4, 0);
    TopIndicesAt(order, TopN);
    ArgMaxIsUnique(p, 5);
    var t := TopIndices(order, TopN);
    assert t == [order[5], order[4], order[3]];
    assert Label(t[1]) in ClassNames.Values;
    assert Label(t[2]) in ClassNames.Values;
  }
}
