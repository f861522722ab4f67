/** Segment ids ("token type ids") for a question/passage pair: every token up to
    and including the first [SEP] belongs to segment A (the question), every token
    after it to segment B (the passage). */
module Segments {
  import opened Outcomes

  const SegmentA: nat := 0
  const SegmentB: nat := 1

  /** Python's `ids.index(x)`: the position of the first occurrence of `x`,
      or None where `list.index` raises ValueError. */
  function IndexOf(ids: seq<int>, x: int): (r: Option<nat>)
    ensures r.None? <==> x !in ids
    ensures r.Some? ==> r.value < |ids| && ids[r.value] == x && x !in ids[..r.value]
  {
    if |ids| == 0 then None
    else if ids[0] == x then Some(0)
    else
      match IndexOf(ids[1..], x)
      case None => None
      case Some(k) =>
        assert ids[..k + 1] == [ids[0]] + ids[1..][..k];
        Some(k + 1)
  }

  /** `[0] * num_seg_a + [1] * num_seg_b`, where `num_seg_a` counts the tokens up
      to and including the first separator. */
  function SegmentIds(ids: seq<int>, sepId: int): (r: Result<seq<nat>>)
    ensures r.Err? <==> sepId !in ids
    ensures r.Err? ==> r.error == SeparatorNotFound
    ensures r.Ok? ==> |r.value| == |ids|
  {
    match IndexOf(ids, sepId)
    case None => Err(SeparatorNotFound)
    case Some(sepIndex) =>
      var numSegA := sepIndex + 1;
      var numSegB := |ids| - numSegA;
      Ok(seq(numSegA, _ => SegmentA) + seq(numSegB, _ => SegmentB))
  }

  /** One non-empty run of segment A followed by a possibly empty run of segment B. */
  predicate IsTwoRuns(tags: seq<nat>) {
    |tags| > 0 && tags[0] == SegmentA &&
    (forall i :: 0 <= i < |tags| ==> tags[i] == SegmentA || tags[i] == SegmentB) &&
    (forall i, j :: 0 <= i <= j < |tags| && tags[i] == SegmentB ==> tags[j] == SegmentB)
  }

  /** The tag at each position is decided by the first separator alone: positions
      up to and including it are A, later positions are B. */
  lemma SegmentBoundary(ids: seq<int>, sepId: int, sepIndex: nat)
    requires sepIndex < |ids| && ids[sepIndex] == sepId && sepId !in ids[..sepIndex]
    ensures SegmentIds(ids, sepId).Ok?
    ensures forall i :: 0 <= i < |ids| ==>
      (SegmentIds(ids, sepId).value[i] == SegmentA <==> i <= sepIndex)
  {
    assert IndexOf(ids, sepId).value == sepIndex;
  }

  /** A position is tagged B exactly when a separator occurs strictly before it. */
  lemma SegmentTagAt(ids: seq<int>, sepId: int, i: nat)
    requires sepId in ids && i < |ids|
    ensures SegmentIds(ids, sepId).value[i] == if sepId in ids[..i] then SegmentB else SegmentA
  {
    var k := IndexOf(ids, sepId).value;
    SegmentBoundary(ids, sepId, k);
    if i <= k {
      assert forall x :: x in ids[..i] ==> x in ids[..k] by {
        assert ids[..i] == ids[..k][..i];
      }
    } else {
      assert ids[..i][k] == sepId;
    }
  }

  /** Reference tagging, one position at a time: B once a separator has been seen
      strictly before the position, A until then. */
  function TagsBySeparator(ids: seq<int>, sepId: int): (tags: seq<nat>) {
    seq(|ids|, i requires 0 <= i < |ids| => if sepId in ids[..i] then SegmentB else SegmentA)
  }

  /** Whenever the separator occurs, the composed tags are exactly the reference tagging. */
  lemma SegmentIdsMatchTags(ids: seq<int>, sepId: int)
    requires sepId in ids
    ensures SegmentIds(ids, sepId) == Ok(TagsBySeparator(ids, sepId))
  {
    var tags := SegmentIds(ids, sepId).value;
    forall i | 0 <= i < |ids|
      ensures tags[i] == TagsBySeparator(ids, sepId)[i]
    {
      SegmentTagAt(ids, sepId, i);
    }
    assert tags == TagsBySeparator(ids, sepId);
  }

  /** Whenever composition succeeds, the tags form one run of A then one run of B. */
  lemma SegmentIdsAreTwoRuns(ids: seq<int>, sepId: int)
    requires sepId in ids
    ensures IsTwoRuns(SegmentIds(ids, sepId).value)
  {
    var k := IndexOf(ids, sepId).value;
    SegmentBoundary(ids, sepId, k);
  }

  /** A worked example: [CLS] q [SEP] p [SEP] with separator id 102; the second
      separator belongs to segment B. */
  lemma SegmentIdsExample()
    ensures SegmentIds([101, 7, 102, 8, 102], 102) == Ok([0, 0, 0, 1, 1])
  {
    var ids := [101, 7, 102, 8, 102];
    assert ids[2] == 102 && 102 !in ids[..2];
    SegmentBoundary(ids, 102, 2);
    var tags := SegmentIds(ids, 102).value;
    assert tags == [0, 0, 0, 1, 1] by {
      forall i | 0 <= i < 5 ensures tags[i] == [0, 0, 0, 1, 1][i] {}
    }
  }
}
