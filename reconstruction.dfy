/** Turning a span of WordPiece tokens back into answer text: continuation
    tokens (those that begin with the "##" marker) are glued to the previous
    token, every other token is preceded by one space. */
module Reconstruction {
  import opened Outcomes

  const Marker: string := "##"

  /** Python's `token[0:2] == '##'`; the slice stops at the end of a shorter token,
      which then never matches. */
  predicate IsContinuation(token: string) {
    (if |token| < 2 then token else token[..2]) == Marker
  }

  /** A token is a continuation exactly when its first two characters are '#'. */
  lemma ContinuationMarker(token: string)
    ensures IsContinuation(token) <==> |token| >= 2 && token[0] == '#' && token[1] == '#'
  {
    if |token| >= 2 && token[0] == '#' && token[1] == '#' {
      assert token[..2] == Marker;
    }
  }

  /** The text one token after the first adds to the answer. */
  function Piece(token: string): (p: string)
    ensures IsContinuation(token) ==> Marker + p == token
    ensures !IsContinuation(token) ==> p == " " + token
  {
    if IsContinuation(token) then token[2..] else " " + token
  }

  /** The pieces of `ts`, concatenated in order. */
  function Pieces(ts: seq<string>): (pieces: string) {
    if ts == [] then "" else Piece(ts[0]) + Pieces(ts[1..])
  }

  /** The answer for the span `start`..`end` of `tokens`: the first token
      verbatim, then the piece of each later token up to `end`. */
  function Answer(tokens: seq<string>, start: nat, end: nat): (answer: string)
    requires start < |tokens| && end < |tokens|
  {
    if end <= start then tokens[start] else tokens[start] + Pieces(tokens[start + 1..end + 1])
  }

  lemma {:induction false} PiecesAppend(ts: seq<string>, t: string)
    ensures Pieces(ts + [t]) == Pieces(ts) + Piece(t)
  {
    if ts == [] {
      assert [] + [t] == [t];
    } else {
      assert (ts + [t])[1..] == ts[1..] + [t];
      PiecesAppend(ts[1..], t);
    }
  }

  lemma SliceOfSlice(tokens: seq<string>, lo: nat, hi: nat, a: nat, b: nat)
    requires lo <= hi <= |tokens| && a <= b <= hi - lo
    ensures tokens[lo..hi][a..b] == tokens[lo + a..lo + b]
  {
    forall i | 0 <= i < b - a
      ensures tokens[lo..hi][a..b][i] == tokens[lo + a..lo + b][i]
    {
    }
  }

  /** Moving the end of the span one token to the right appends exactly that
      token's piece: the marker-stripped token, or a space and the token. */
  lemma AnswerExtend(tokens: seq<string>, start: nat, end: nat)
    requires start < end < |tokens|
    ensures Answer(tokens, start, end) == Answer(tokens, start, end - 1) + Piece(tokens[end])
    ensures IsContinuation(tokens[end]) ==>
      Answer(tokens, start, end) == Answer(tokens, start, end - 1) + tokens[end][2..]
    ensures !IsContinuation(tokens[end]) ==>
      Answer(tokens, start, end) == Answer(tokens, start, end - 1) + (" " + tokens[end])
  {
    AnswerExtendByPiece(tokens, start, end);
  }

  lemma AnswerExtendByPiece(tokens: seq<string>, start: nat, end: nat)
    requires start < end < |tokens|
    ensures Answer(tokens, start, end) == Answer(tokens, start, end - 1) + Piece(tokens[end])
  {
    AnswerBefore(tokens, start, end);
    PiecesExtend(tokens, start + 1, end);
    AppendPiece(Answer(tokens, start, end), Answer(tokens, start, end - 1), tokens[start],
                Pieces(tokens[start + 1..end + 1]), Pieces(tokens[start + 1..end]), Piece(tokens[end]));
  }

  /** The answer up to just before `end` is the first token followed by the
      pieces of the tokens strictly between `start` and `end`. */
  lemma AnswerBefore(tokens: seq<string>, start: nat, end: nat)
    requires start < end < |tokens|
    ensures Answer(tokens, start, end - 1) == tokens[start] + Pieces(tokens[start + 1..end])
  {
    if end - 1 == start {
      assert tokens[start + 1..end] == [];
    } else {
      assert end - 1 + 1 == end;
    }
  }

  /** Appending one more piece: if the pieces grow by `piece`, so does the
      answer made of a first token and those pieces. */
  lemma AppendPiece(answer: string, before: string, first: string, pieces: string, piecesBefore: string, piece: string)
    requires answer == first + pieces && before == first + piecesBefore
    requires pieces == piecesBefore + piece
    ensures answer == before + piece
  {
    assert first + (piecesBefore + piece) == (first + piecesBefore) + piece;
  }

  lemma PiecesExtend(tokens: seq<string>, lo: nat, hi: nat)
    requires lo <= hi < |tokens|
    ensures Pieces(tokens[lo..hi + 1]) == Pieces(tokens[lo..hi]) + Piece(tokens[hi])
  {
    assert tokens[lo..hi + 1] == tokens[lo..hi] + [tokens[hi]];
    PiecesAppend(tokens[lo..hi], tokens[hi]);
  }

  /** The first token appears verbatim at the head of the answer, "##" and all;
      for an empty or inverted range (end <= start) it is the whole answer. */
  lemma AnswerStartsWithFirstToken(tokens: seq<string>, start: nat, end: nat)
    requires start < |tokens| && end < |tokens|
    ensures tokens[start] <= Answer(tokens, start, end)
    ensures end <= start ==> Answer(tokens, start, end) == tokens[start]
  {
  }

  /** The answer depends only on the tokens inside the span: reconstructing from
      any slice `tokens[lo..hi]` that contains the span, re-indexed, gives the
      same text. */
  lemma AnswerLocal(tokens: seq<string>, lo: nat, hi: nat, start: nat, end: nat)
    requires lo <= start < hi <= |tokens| && lo <= end < hi
    ensures Answer(tokens, start, end) == Answer(tokens[lo..hi], start - lo, end - lo)
  {
    SpanOfSlice(tokens, lo, hi, start, end);
  }

  /** Inside `tokens[lo..hi]`, re-indexed, the span has the same first token and
      the same later tokens. */
  lemma SpanOfSlice(tokens: seq<string>, lo: nat, hi: nat, start: nat, end: nat)
    requires lo <= start < hi <= |tokens| && lo <= end < hi
    ensures tokens[lo..hi][start - lo] == tokens[start]
    ensures start < end ==> tokens[lo..hi][start - lo + 1..end - lo + 1] == tokens[start + 1..end + 1]
  {
    if start < end {
      var a, b := start - lo + 1, end - lo + 1;
      SliceOfSlice(tokens, lo, hi, a, b);
      assert lo + a == start + 1 && lo + b == end + 1;
    }
  }

  /** In particular, reconstructing from the span alone, re-indexed from 0. */
  lemma AnswerFromSpanAlone(tokens: seq<string>, start: nat, end: nat)
    requires start <= end < |tokens|
    ensures Answer(tokens, start, end) == Answer(tokens[start..end + 1], 0, end - start)
  {
    AnswerLocal(tokens, start, end + 1, start, end);
  }

  /** A continuation token is merged without a space: "un" "##able" gives "unable". */
  lemma ContinuationMergeExample()
    ensures Answer(["un", "##able"], 0, 1) == "unable"
  {
    assert IsContinuation("##able");
    assert "##able"[2..] == "able";
  }

  /** The answer loop of the notebook (`answer_question`): start from the first
      token, then append each later token up to `end`, stripped of its marker
      or after a space. Indexing past the last token raises IndexError. */
  method ReconstructAnswer(tokens: seq<string>, answerStart: nat, answerEnd: nat) returns (r: Result<string>)
    ensures r.Ok? <==> answerStart < |tokens| && (answerEnd <= answerStart || answerEnd < |tokens|)
    ensures r.Err? ==> r.error == TokenIndexOutOfRange
    ensures r.Ok? ==> r.value == Answer(tokens, answerStart, answerEnd)
  {
    if answerStart >= |tokens| {
      return Err(TokenIndexOutOfRange);
    }
    var answer := tokens[answerStart];
    var i := answerStart + 1;
    ghost var last := answerStart;
    while i < answerEnd + 1
      invariant answerStart < i <= |tokens|
      invariant i == answerStart + 1 || i <= answerEnd + 1
      invariant last == i - 1
      invariant answer == Answer(tokens, answerStart, last)
    {
      if i >= |tokens| {
        return Err(TokenIndexOutOfRange);
      }
      AnswerStep(tokens, answerStart, i, answer);
      if IsContinuation(tokens[i]) {
        answer := answer + tokens[i][2..];
      } else {
        answer := answer + (" " + tokens[i]);
      }
      last := i;
      i := i + 1;
    }
    if answerEnd <= answerStart {
      assert last == answerStart;
    } else {
      assert last == answerEnd;
    }
    return Ok(answer);
  }

  /** One iteration of the loop: the partial answer for `(start, i - 1]`, grown
      as the loop grows it, is the answer for `(start, i]`. */
  lemma AnswerStep(tokens: seq<string>, start: nat, i: nat, answer: string)
    requires start < i < |tokens| && answer == Answer(tokens, start, i - 1)
    ensures IsContinuation(tokens[i]) ==> answer + tokens[i][2..] == Answer(tokens, start, i)
    ensures !IsContinuation(tokens[i]) ==> answer + (" " + tokens[i]) == Answer(tokens, start, i)
  {
    AnswerExtend(tokens, start, i);
  }

  /** `' '.join(ts)`. */
  function SpaceJoin(ts: seq<string>): (joined: string)
    ensures ts == [] ==> joined == ""
    ensures |joined| >= |ts| - 1
    decreases |ts|
  {
    if |ts| == 0 then ""
    else if |ts| == 1 then ts[0]
    else SpaceJoin(ts[..|ts| - 1]) + (" " + ts[|ts| - 1])
  }

  /** A join begins with its first element. */
  lemma {:induction false} SpaceJoinStartsWithFirst(ts: seq<string>)
    requires ts != []
    ensures ts[0] <= SpaceJoin(ts)
    decreases |ts|
  {
    if |ts| > 1 {
      var prefix := ts[..|ts| - 1];
      SpaceJoinStartsWithFirst(prefix);
      assert prefix[0] == ts[0];
    }
  }

  /** A space before each element: the join read from the left. */
  function Spaced(ts: seq<string>): (spaced: string) {
    if ts == [] then "" else (" " + ts[0]) + Spaced(ts[1..])
  }

  lemma {:induction false} SpacedAppend(ts: seq<string>, t: string)
    ensures Spaced(ts + [t]) == Spaced(ts) + (" " + t)
  {
    if ts == [] {
      assert [] + [t] == [t];
    } else {
      assert (ts + [t])[1..] == ts[1..] + [t];
      SpacedAppend(ts[1..], t);
    }
  }

  /** A join is its first element followed by each later element after exactly
      one space, in order. */
  lemma {:induction false} SpaceJoinIsFirstThenSpaced(ts: seq<string>)
    requires ts != []
    ensures SpaceJoin(ts) == ts[0] + Spaced(ts[1..])
    decreases |ts|
  {
    if |ts| == 1 {
      assert ts[1..] == [];
    } else {
      var prefix, last := ts[..|ts| - 1], ts[|ts| - 1];
      SpaceJoinIsFirstThenSpaced(prefix);
      assert prefix[0] == ts[0];
      assert ts[1..] == prefix[1..] + [last];
      SpacedAppend(prefix[1..], last);
      var first, rest := ts[0], Spaced(prefix[1..]);
      assert (first + rest) + (" " + last) == first + (rest + (" " + last));
    }
  }

  /** Python's `tokens[lo:hi]` for non-negative bounds: both are clamped to the
      length, and a slice whose end is not after its start is empty. */
  function PySlice(tokens: seq<string>, lo: nat, hi: nat): (s: seq<string>)
    ensures |s| == if lo < hi && lo < |tokens| then (if hi < |tokens| then hi else |tokens|) - lo else 0
    ensures forall k :: 0 <= k < |s| ==> s[k] == tokens[lo + k]
  {
    var l := if lo < |tokens| then lo else |tokens|;
    var h := if hi < |tokens| then hi else |tokens|;
    if h <= l then [] else tokens[l..h]
  }

  /** The first version of the answer in the notebook: the span's tokens joined
      by single spaces, with no subword merging. */
  function NaiveAnswer(tokens: seq<string>, answerStart: nat, answerEnd: nat): (answer: string)
    ensures answerEnd < answerStart || |tokens| <= answerStart ==> answer == ""
    ensures answerStart <= answerEnd < |tokens| ==> answer == SpaceJoin(tokens[answerStart..answerEnd + 1])
    ensures answerStart <= answerEnd && answerStart < |tokens| <= answerEnd ==>
      answer == SpaceJoin(tokens[answerStart..])
  {
    var slice := PySlice(tokens, answerStart, answerEnd + 1);
    assert answerStart <= answerEnd && answerStart < |tokens| <= answerEnd ==> slice == tokens[answerStart..];
    SpaceJoin(slice)
  }

  /** The naive join answers an inverted span with the empty string, where the
      reconstruction loop answers with the start token. */
  lemma NaiveAnswerInverted(tokens: seq<string>, answerStart: nat, answerEnd: nat)
    requires answerEnd < answerStart < |tokens|
    ensures NaiveAnswer(tokens, answerStart, answerEnd) == ""
    ensures Answer(tokens, answerStart, answerEnd) == tokens[answerStart]
  {
  }

  /** Without continuation tokens after the first one, both answers agree. */
  lemma {:induction false} NaiveAnswerAgrees(tokens: seq<string>, answerStart: nat, answerEnd: nat)
    requires answerStart <= answerEnd < |tokens|
    requires forall k :: answerStart < k <= answerEnd ==> !IsContinuation(tokens[k])
    ensures NaiveAnswer(tokens, answerStart, answerEnd) == Answer(tokens, answerStart, answerEnd)
    decreases answerEnd
  {
    if answerStart < answerEnd {
      NaiveAnswerAgrees(tokens, answerStart, answerEnd - 1);
      NaiveAnswerStep(tokens, answerStart, answerEnd);
    } else {
      NaiveAnswerSingle(tokens, answerStart);
    }
  }

  /** Both answers grow alike by a token that is not a continuation. */
  lemma NaiveAnswerStep(tokens: seq<string>, answerStart: nat, answerEnd: nat)
    requires answerStart < answerEnd < |tokens| && !IsContinuation(tokens[answerEnd])
    requires NaiveAnswer(tokens, answerStart, answerEnd - 1) == Answer(tokens, answerStart, answerEnd - 1)
    ensures NaiveAnswer(tokens, answerStart, answerEnd) == Answer(tokens, answerStart, answerEnd)
  {
    NaiveAnswerExtend(tokens, answerStart, answerEnd);
    AnswerExtend(tokens, answerStart, answerEnd);
  }

  /** A one-token span: both answers are that token. */
  lemma NaiveAnswerSingle(tokens: seq<string>, i: nat)
    requires i < |tokens|
    ensures NaiveAnswer(tokens, i, i) == tokens[i] == Answer(tokens, i, i)
  {
    assert PySlice(tokens, i, i + 1) == [tokens[i]];
  }

  /** Moving the end of a non-empty span one token to the right adds a space and
      that token to the naive answer. */
  lemma NaiveAnswerExtend(tokens: seq<string>, answerStart: nat, answerEnd: nat)
    requires answerStart < answerEnd < |tokens|
    ensures NaiveAnswer(tokens, answerStart, answerEnd)
      == NaiveAnswer(tokens, answerStart, answerEnd - 1) + (" " + tokens[answerEnd])
  {
    var s := PySlice(tokens, answerStart, answerEnd + 1);
    var prefix := PySlice(tokens, answerStart, answerEnd);
    assert answerEnd - 1 + 1 == answerEnd;
    assert s[..|s| - 1] == prefix;
    assert s[|s| - 1] == tokens[answerEnd];
  }

  /** With a continuation token the two differ: the naive join keeps the marker. */
  lemma NaiveAnswerKeepsMarker()
    ensures NaiveAnswer(["un", "##able"], 0, 1) == "un ##able"
    ensures Answer(["un", "##able"], 0, 1) == "unable"
  {
    ContinuationMergeExample();
    assert PySlice(["un", "##able"], 0, 2) == ["un", "##able"];
  }
}
