/** `answer_question`: tokenize, tag segments, score, select a span, rebuild the
    answer. The tokenizer and the model are black boxes and come in as
    parameters: the encoded ids, the separator id, the id-to-token vocabulary and
    the scoring function. */
module Pipeline {
  import opened Outcomes
  import opened Segments
  import opened SpanSelection
  import opened Reconstruction

  /** The model: (input ids, segment ids) to (start scores, end scores). */
  type Scorer = (seq<int>, seq<nat>) -> (seq<real>, seq<real>)

  /** `tokenizer.convert_ids_to_tokens(ids)`. */
  function Tokens(ids: seq<int>, vocab: int -> string): (tokens: seq<string>)
    ensures |tokens| == |ids|
    ensures forall k :: 0 <= k < |ids| ==> tokens[k] == vocab(ids[k])
  {
    seq(|ids|, k requires 0 <= k < |ids| => vocab(ids[k]))
  }

  /** The model's scores for the composed input; defined once the separator is
      found. The model sees each id tagged B exactly when a separator comes
      before it. */
  function ModelScores(ids: seq<int>, sepId: int, scorer: Scorer): (scores: (seq<real>, seq<real>))
    requires sepId in ids
    ensures scores == scorer(ids, TagsBySeparator(ids, sepId))
  {
    SegmentIdsMatchTags(ids, sepId);
    scorer(ids, SegmentIds(ids, sepId).value)
  }

  /** The positions the answer loop can read without an IndexError. */
  predicate InTokenRange(span: Span, n: nat) {
    span.start < n && (span.end <= span.start || span.end < n)
  }

  /** The pipeline as written: independent argmax for start and end. The answer
      it returns is the reconstruction of the first-argmax start and end
      positions of the model's scores, whatever their order. */
  method AnswerQuestion(ids: seq<int>, sepId: int, vocab: int -> string, scorer: Scorer)
    returns (r: Result<string>)
    ensures sepId !in ids ==> r == Err(SeparatorNotFound)
    ensures r.Ok? ==> (
      sepId in ids &&
      exists span: Span ::
        IsFirstMax(ModelScores(ids, sepId, scorer).0, span.start) &&
        IsFirstMax(ModelScores(ids, sepId, scorer).1, span.end) &&
        InTokenRange(span, |ids|) &&
        r.value == Answer(Tokens(ids, vocab), span.start, span.end))
    ensures r.Err? ==> (
      sepId !in ids ||
      forall span: Span ::
        IsFirstMax(ModelScores(ids, sepId, scorer).0, span.start) &&
        IsFirstMax(ModelScores(ids, sepId, scorer).1, span.end) ==>
        !InTokenRange(span, |ids|))
    ensures sepId in ids && r.Err? ==>
      r.error == if |ModelScores(ids, sepId, scorer).0| == 0 || |ModelScores(ids, sepId, scorer).1| == 0
                 then EmptyScores else TokenIndexOutOfRange
    ensures (sepId in ids &&
             (|ModelScores(ids, sepId, scorer).0| == 0 || |ModelScores(ids, sepId, scorer).1| == 0)) ==>
      r.Err?
  {
    var segmentIds := SegmentIds(ids, sepId);
    if segmentIds.Err? {
      return Err(segmentIds.error);
    }
    var scores := scorer(ids, segmentIds.value);
    var span := NaiveSelect(scores.0, scores.1);
    if span.Err? {
      return Err(span.error);
    }
    var tokens := Tokens(ids, vocab);
    r := ReconstructAnswer(tokens, span.value.start, span.value.end);
    forall other: Span | IsFirstMax(scores.0, other.start) && IsFirstMax(scores.1, other.end)
      ensures other == span.value
    {
      FirstMaxUnique(scores.0, other.start, span.value.start);
      FirstMaxUnique(scores.1, other.end, span.value.end);
    }
  }

  /** The pipeline with the constrained selection: the answer is the
      reconstruction of the selected span, whose end never precedes its start,
      and it always succeeds when the scores are aligned with the ids. */
  method AnswerQuestionConstrained(ids: seq<int>, sepId: int, vocab: int -> string, scorer: Scorer)
    returns (r: Result<string>)
    ensures sepId !in ids ==> r == Err(SeparatorNotFound)
    ensures r.Ok? ==> (
      sepId in ids &&
      exists span: Span ::
        IsSelectedSpan(ModelScores(ids, sepId, scorer).0, ModelScores(ids, sepId, scorer).1, span) &&
        span.start <= span.end < |ids| &&
        r.value == Answer(Tokens(ids, vocab), span.start, span.end))
    ensures r.Err? ==> (
      sepId !in ids ||
      |ModelScores(ids, sepId, scorer).0| != |ModelScores(ids, sepId, scorer).1| ||
      |ModelScores(ids, sepId, scorer).0| == 0 ||
      |ModelScores(ids, sepId, scorer).0| > |ids|)
    ensures sepId in ids && r.Err? ==>
      r.error == if |ModelScores(ids, sepId, scorer).0| != |ModelScores(ids, sepId, scorer).1| then ScoreLengthMismatch
                 else if |ModelScores(ids, sepId, scorer).0| == 0 then EmptyScores
                 else TokenIndexOutOfRange
    ensures (sepId in ids &&
             (|ModelScores(ids, sepId, scorer).0| != |ModelScores(ids, sepId, scorer).1| ||
              |ModelScores(ids, sepId, scorer).0| == 0)) ==>
      r.Err?
  {
    var segmentIds := SegmentIds(ids, sepId);
    if segmentIds.Err? {
      return Err(segmentIds.error);
    }
    var scores := scorer(ids, segmentIds.value);
    var span := SelectSpan(scores.0, scores.1);
    if span.Err? {
      return Err(span.error);
    }
    var tokens := Tokens(ids, vocab);
    r := ReconstructAnswer(tokens, span.value.start, span.value.end);
    if r.Ok? {
      assert IsSelectedSpan(scores.0, scores.1, span.value) && span.value.start <= span.value.end < |ids|;
    }
  }
}
