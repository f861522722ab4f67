/** Choosing the answer span from the model's per-token start and end scores.
    Scores are logits: they are only compared and added, so they are `real`s here. */
module SpanSelection {
  import opened Outcomes

  /** An inclusive pair of token positions. */
  datatype Span = Span(start: nat, end: nat)

  /** `k` is what `torch.argmax` returns: a position of the largest score, the
      first one when several positions tie. */
  predicate IsFirstMax(scores: seq<real>, k: nat) {
    k < |scores| &&
    (forall j :: 0 <= j < |scores| ==> scores[j] <= scores[k]) &&
    (forall j :: 0 <= j < k ==> scores[j] < scores[k])
  }

  /** `torch.argmax(scores)`: a scan that keeps the running best position. */
  method ArgMax(scores: seq<real>) returns (r: Result<nat>)
    ensures r.Err? <==> |scores| == 0
    ensures r.Err? ==> r.error == EmptyScores
    ensures r.Ok? ==> IsFirstMax(scores, r.value)
  {
    if |scores| == 0 {
      return Err(EmptyScores);
    }
    var best := 0;
    for i := 1 to |scores|
      invariant best < i
      invariant forall j :: 0 <= j < i ==> scores[j] <= scores[best]
      invariant forall j :: 0 <= j < best ==> scores[j] < scores[best]
    {
      if scores[i] > scores[best] {
        best := i;
      }
    }
    return Ok(best);
  }

  /** The first maximum is determined by the scores: argmax is a function. */
  lemma FirstMaxUnique(scores: seq<real>, a: nat, b: nat)
    requires IsFirstMax(scores, a) && IsFirstMax(scores, b)
    ensures a == b
  {
    assert scores[a] == scores[b];
  }

  /** The selection the code performs: start and end are two independent argmaxes. */
  method NaiveSelect(startScores: seq<real>, endScores: seq<real>) returns (r: Result<Span>)
    ensures r.Err? <==> |startScores| == 0 || |endScores| == 0
    ensures r.Err? ==> r.error == EmptyScores
    ensures r.Ok? ==> IsFirstMax(startScores, r.value.start) && IsFirstMax(endScores, r.value.end)
  {
    var answerStart := ArgMax(startScores);
    if answerStart.Err? {
      return Err(answerStart.error);
    }
    var answerEnd := ArgMax(endScores);
    if answerEnd.Err? {
      return Err(answerEnd.error);
    }
    return Ok(Span(answerStart.value, answerEnd.value));
  }

  /** Independent argmax can invert the span: with start scores [0, 1] and end
      scores [1, 0] the only possible outcome of NaiveSelect is start 1, end 0. */
  lemma NaiveSelectionInverts(answerStart: nat, answerEnd: nat)
    requires IsFirstMax([0.0, 1.0], answerStart) && IsFirstMax([1.0, 0.0], answerEnd)
    ensures answerStart == 1 && answerEnd == 0 && answerEnd < answerStart
  {
    var startScores, endScores := [0.0, 1.0], [1.0, 0.0];
    assert startScores[1] <= startScores[answerStart];
    assert endScores[0] <= endScores[answerEnd];
  }

  /** `span` is a valid span of the highest total score start[i] + end[j] over all
      pairs with i <= j. */
  predicate IsBestSpan(startScores: seq<real>, endScores: seq<real>, span: Span) {
    |startScores| == |endScores| && span.start <= span.end < |startScores| &&
    forall i, j :: 0 <= i <= j < |startScores| ==>
      startScores[i] + endScores[j] <= startScores[span.start] + endScores[span.end]
  }

  /** A best span that also wins every tie: no other pair of the same total has an
      earlier start, or the same start and an earlier end. */
  predicate IsSelectedSpan(startScores: seq<real>, endScores: seq<real>, span: Span) {
    IsBestSpan(startScores, endScores, span) &&
    forall i, j ::
      (0 <= i <= j < |startScores| &&
       startScores[i] + endScores[j] == startScores[span.start] + endScores[span.end]) ==>
      span.start < i || (span.start == i && span.end <= j)
  }

  /** The selected span is unique, so the selection is deterministic. */
  lemma SelectedSpanUnique(startScores: seq<real>, endScores: seq<real>, a: Span, b: Span)
    requires IsSelectedSpan(startScores, endScores, a) && IsSelectedSpan(startScores, endScores, b)
    ensures a == b
  {
    assert startScores[a.start] + endScores[a.end] == startScores[b.start] + endScores[b.end];
  }

  /** The selection the notebook asks for: the best-scoring span with end >= start.
      One right-to-left pass: `bestEnd` is the first argmax of the end scores from
      `i` on, and (`bi`, `bj`) the selected span among starts from `i` on. */
  method SelectSpan(startScores: seq<real>, endScores: seq<real>) returns (r: Result<Span>)
    ensures r.Err? <==> |startScores| != |endScores| || |startScores| == 0
    ensures r.Err? ==> r.error == if |startScores| != |endScores| then ScoreLengthMismatch else EmptyScores
    ensures r.Ok? ==> IsSelectedSpan(startScores, endScores, r.value)
  {
    if |startScores| != |endScores| {
      return Err(ScoreLengthMismatch);
    }
    if |startScores| == 0 {
      return Err(EmptyScores);
    }
    var n := |startScores|;
    var i := n - 1;
    var bestEnd := i;
    var bi, bj := i, i;
    while i > 0
      invariant 0 <= i <= bestEnd < n
      invariant forall k :: i <= k < n ==> endScores[k] <= endScores[bestEnd]
      invariant forall k :: i <= k < bestEnd ==> endScores[k] < endScores[bestEnd]
      invariant i <= bi <= bj < n
      invariant forall p, q :: i <= p <= q < n ==>
        startScores[p] + endScores[q] <= startScores[bi] + endScores[bj]
      invariant forall p, q ::
        (i <= p <= q < n && startScores[p] + endScores[q] == startScores[bi] + endScores[bj]) ==>
        bi < p || (bi == p && bj <= q)
    {
      i := i - 1;
      if endScores[i] >= endScores[bestEnd] {
        bestEnd := i;
      }
      if startScores[i] + endScores[bestEnd] >= startScores[bi] + endScores[bj] {
        bi, bj := i, bestEnd;
      }
    }
    return Ok(Span(bi, bj));
  }

  /** Whenever the two independent argmaxes happen to be ordered, they are exactly
      the span the constrained selection picks. */
  lemma NaiveAgreesWhenOrdered(startScores: seq<real>, endScores: seq<real>, span: Span)
    requires |startScores| == |endScores|
    requires IsFirstMax(startScores, span.start) && IsFirstMax(endScores, span.end)
    requires span.start <= span.end
    ensures IsSelectedSpan(startScores, endScores, span)
  {
  }
}
