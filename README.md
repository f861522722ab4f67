# BERT question answering: span resolution

This project models the deterministic core of `answer_question` in the notebook
script `Bert.py`. The function finds the answer to a question inside a passage
with a BERT model fine-tuned on SQuAD. The tokenizer and the network are black
boxes here. What remains is three small steps around them, plus the pipeline
that chains them.

- **Segment ids** (`segments.dfy`). The encoded pair is `[CLS] question [SEP] passage [SEP]`.
  - Every token up to and including the first `[SEP]` is tagged 0 (segment A). Every later token is tagged 1 (segment B).
  - The separator is found with Python's `list.index`, which raises `ValueError` when the separator is absent. That error is modelled as `Err(SeparatorNotFound)`.
- **Span selection** (`span_selection.dfy`). The model yields one start score and one end score per token.
  - The code picks the start and the end as two independent `torch.argmax`es. `torch.argmax` returns the first position of the maximum.
  - A comment in the notebook points out that this can pick an end before the start. It says the correct rule is the highest total `start[i] + end[j]` with `j >= i`.
  - Both rules are modelled: `NaiveSelect` (as written) and `SelectSpan` (as intended).
  - `SelectSpan` breaks ties by the earliest start, then the earliest end, so that it is deterministic. It does this in one right-to-left pass that keeps the first argmax of the end scores over the suffix.
  - Scores are logits that are only compared and added, so they are `real`.
- **Answer reconstruction** (`reconstruction.dfy`). The loop starts from `tokens[start]` verbatim. It then appends each token in `(start, end]`:
  - a WordPiece continuation token (one whose first two characters are `##`) is appended without the marker;
  - any other token is appended after a single space.
  - `ReconstructAnswer` is that loop, proved against the function `Answer`. The earlier notebook variant `' '.join(tokens[start:end + 1])` is `NaiveAnswer`.
- **Pipeline** (`pipeline.dfy`). `AnswerQuestion` chains the steps as the code does. `AnswerQuestionConstrained` chains them with the constrained selection.
  - The tokenizer is a parameter: the encoded ids, the separator id and an id-to-token function.
  - The model is a parameter too: a function from (ids, segment ids) to the two score sequences.

`outcomes.dfy` holds the shared `Option`, `Result` and `Error` types. `SeparatorNotFound`, `EmptyScores` and `TokenIndexOutOfRange` each stand for the Python exception the code would raise at that point. `ScoreLengthMismatch` is the model's own error for the corrected selection, which the Python code does not contain.

## Behaviour at the edges

- An inverted span (end < start) is not an error. The loop body never runs, so the code answers `tokens[start]`, and so does `ReconstructAnswer`.
- No length limit is checked before the model call, and nothing is truncated or padded.
- The assertion `len(segment_ids) == len(input_ids)` at Bert.py:400 cannot fail. `SegmentIds` proves the equal length as a postcondition, so the model has no error for it.
- The code fails where Python or the libraries raise:
  - `ValueError` from `list.index` when there is no separator (`SeparatorNotFound`);
  - an error from `torch.argmax` on empty scores (`EmptyScores`);
  - `IndexError` when the answer code indexes past the last token, at `tokens[answer_start]` or inside the loop (`TokenIndexOutOfRange`);
  - any error the model call itself raises, such as on input longer than the model accepts. That path is not modelled (see "Left out").

## Model

| member | source | states |
|---|---|---|
| `Segments.IndexOf` | Bert.py:388 | `list.index`: None exactly when the separator is absent; otherwise an in-range position holding it, with no occurrence before it |
| `Segments.SegmentIds` | Bert.py:388-400 | fails with `SeparatorNotFound` exactly when the separator id does not occur; on success has exactly as many tags as there are ids |
| `Segments.SegmentBoundary` | Bert.py:388-397 | with the first separator at `sepIndex`, position `i` is tagged A exactly when `i <= sepIndex` |
| `Segments.SegmentTagAt` | Bert.py:181-190 | a position is tagged B exactly when a separator occurs strictly before it |
| `Segments.SegmentIdsAreTwoRuns` | Bert.py:388-397 | whenever composition succeeds, the tags are one non-empty run of 0s followed by a possibly empty run of 1s, and contain no other value |
| `Segments.SegmentIdsMatchTags` | Bert.py:388-397 | whenever the separator occurs, the composed tags equal a position-by-position reference tagging: B exactly when a separator occurs before the position |
| `Segments.SegmentIdsExample` | Bert.py:388-397 | `[101, 7, 102, 8, 102]` with separator 102 tags as `[0, 0, 0, 1, 1]`; the second separator is in segment B |
| `SpanSelection.ArgMax` | Bert.py:414 | `torch.argmax`: fails on empty scores; otherwise returns an in-range position whose score is at least every score, and strictly above every earlier one |
| `SpanSelection.FirstMaxUnique` | Bert.py:414-415 | the first argmax is unique, so argmax is a function of the scores |
| `SpanSelection.NaiveSelect` | Bert.py:414-415 | fails exactly when either score sequence is empty; otherwise start and end are the first argmaxes of their own scores, chosen independently |
| `SpanSelection.NaiveSelectionInverts` | Bert.py:223-224 | for start scores `[0, 1]` and end scores `[1, 0]`, the only possible independent argmaxes are start 1 and end 0, an inverted span |
| `SpanSelection.SelectSpan` | Bert.py:233 | fails exactly on mismatched lengths or empty scores; otherwise returns a span with `start <= end` in range whose total score is at least that of every pair `i <= j`, and which wins ties by earliest start, then earliest end |
| `SpanSelection.SelectedSpanUnique` | Bert.py:233 | at most one span satisfies the constrained rule with its tie-break, so the selection is deterministic |
| `SpanSelection.NaiveAgreesWhenOrdered` | Bert.py:233 | when the independent argmaxes happen to satisfy `start <= end`, they are exactly the span the constrained rule selects |
| `Reconstruction.ContinuationMarker` | Bert.py:427 | `tokens[i][0:2] == '##'` holds exactly when the token has at least two characters and both of the first two are `#`; shorter tokens never match |
| `Reconstruction.Piece` | Bert.py:427-432 | a continuation token contributes its text after the `##` marker and nothing else; any other token contributes one space followed by the whole token |
| `Reconstruction.PiecesAppend` | Bert.py:424-432 | the pieces of a token list with one more token at the end are the old pieces followed by that token's piece |
| `Reconstruction.AnswerExtend` | Bert.py:424-432 | moving the end of a span one token right appends exactly that token's piece: the marker-stripped text for a continuation, a space and the token otherwise |
| `Reconstruction.AnswerBefore` | Bert.py:420-432 | helper, `Answer` unfolded at `end - 1`: the answer up to just before `end` is the first token followed by the pieces of the tokens strictly between `start` and `end`, also when that range is empty |
| `Reconstruction.AnswerStartsWithFirstToken` | Bert.py:421-424 | the answer begins with `tokens[start]` verbatim, `##` included; when `end <= start` it is exactly `tokens[start]` |
| `Reconstruction.AnswerLocal` | Bert.py:424-432 | the answer depends only on the tokens of the span: any slice containing the span, re-indexed, gives the same text |
| `Reconstruction.AnswerFromSpanAlone` | Bert.py:424-432 | reconstructing from `tokens[start..end + 1]` alone, indexed from 0, gives the same text |
| `Reconstruction.ContinuationMergeExample` | Bert.py:427-428 | `"un"`, `"##able"` reconstructs to `"unable"` |
| `Reconstruction.AnswerStep` | Bert.py:424-432 | one iteration of the loop: growing the answer for `(start, i - 1]` by the marker-stripped token `i` (continuation) or by a space and token `i` (otherwise) gives the answer for `(start, i]` |
| `Reconstruction.ReconstructAnswer` | Bert.py:420-432 | the loop fails with `TokenIndexOutOfRange` exactly when it would index past the tokens (start out of range, or `start < end` with end out of range); otherwise it returns `Answer(tokens, start, end)` |
| `Reconstruction.SpaceJoin` | Bert.py:227 | `' '.join`: the empty list joins to `""`, and a join has at least one character per separating space |
| `Reconstruction.SpaceJoinIsFirstThenSpaced` | Bert.py:227 | a join of a non-empty list is its first element followed by every later element, in order, each after exactly one space (read from the left, independently of the definition's right recursion) |
| `Reconstruction.SpacedAppend` | Bert.py:227 | one more element at the end of the list adds exactly one space and that element at the end of the spaced text |
| `Reconstruction.SpaceJoinStartsWithFirst` | Bert.py:227 | a join of a non-empty list begins with its first element |
| `Reconstruction.PySlice` | Bert.py:227 | Python's clamped slice `tokens[lo:hi]`: the length is clamped to the token count and is 0 when the slice is inverted; element `k` is `tokens[lo + k]` |
| `Reconstruction.NaiveAnswer` | Bert.py:227 | `' '.join(tokens[start:end + 1])`: `""` when the span is inverted or starts past the tokens; the join of `tokens[start..end + 1]` when it is in range; the join of `tokens[start..]` when the end is past the last token |
| `Reconstruction.NaiveAnswerExtend` | Bert.py:227 | moving the end of a non-empty span one token right adds a space and that token to the naive join |
| `Reconstruction.NaiveAnswerInverted` | Bert.py:227 | for an inverted span the naive join gives the empty string, while the reconstruction loop gives `tokens[start]` |
| `Reconstruction.NaiveAnswerAgrees` | Bert.py:227 | when no token after the first in the span is a continuation, the naive join and the reconstruction give the same text |
| `Reconstruction.NaiveAnswerKeepsMarker` | Bert.py:227 | with a continuation token they differ: the naive join gives `"un ##able"`, the loop gives `"unable"` |
| `Pipeline.Tokens` | Bert.py:418 | `convert_ids_to_tokens`: one token per id, the vocabulary entry of that id |
| `Pipeline.ModelScores` | Bert.py:404-410 | the model is called on the ids together with the reference tagging: each id is tagged B exactly when a separator comes before it |
| `Pipeline.AnswerQuestion` | Bert.py:373-432 | fails with `SeparatorNotFound` when there is no separator. On success, the answer is the reconstruction, over the ids' tokens, of the first-argmax start and end of the model's scores, whatever their order. With a separator, it fails with `EmptyScores` exactly when either score sequence is empty. Otherwise it fails only with `TokenIndexOutOfRange`, and only when the first-argmax pair is out of token range |
| `Pipeline.AnswerQuestionConstrained` | Bert.py:373-432 | the same pipeline with the constrained selection. On success, the answer is the reconstruction of the selected span, with `start <= end` inside the ids. It fails only when there is no separator, or the scores are empty, mismatched or longer than the ids. With a separator, a length mismatch always gives `ScoreLengthMismatch`. Otherwise empty scores always give `EmptyScores`, and any other failure is `TokenIndexOutOfRange` |

## Findings

| source | as written | input that shows it | evidently intended | confidence | as-written member | corrected member |
|---|---|---|---|---|---|---|
| Bert.py:414-415 | start and end are two independent argmaxes, so the end can come before the start | start scores `[0.0, 1.0]`, end scores `[1.0, 0.0]` give start 1, end 0; the loop then answers `tokens[1]` alone | the highest total `start[i] + end[j]` over pairs with `i <= j`, as the comment at Bert.py:233 says | high; not executed | `SpanSelection.NaiveSelectionInverts` | `SpanSelection.SelectSpan` |

`AnswerQuestion` keeps the as-written selection and `AnswerQuestionConstrained` uses the corrected one. `NaiveAgreesWhenOrdered` shows that the two agree whenever the as-written pair is ordered.

## Left out

- Model loading and inference (Bert.py:108-121, 209-215, 404-410). These are foreign library calls. The scores come from the `Scorer` parameter, a pure function of the ids and the segment ids.
- Tokenizer calls `tokenizer.encode` and `convert_ids_to_tokens` (Bert.py:144, 155, 381, 418). The ids, the separator id and the id-to-token mapping are parameters; `AnswerQuestion` takes the ids already encoded.
- Printing the answer and the token tables (Bert.py:146-169, 229, 254, 434). This is console I/O. `AnswerQuestion` returns the answer string instead of printing it.
- Score plots (Bert.py:263-363), text wrapping and the example calls (Bert.py:443-478). These are presentation and demo code.
- Softmax and probabilities. The code never computes them.
- Floating-point behaviour of the logits, including NaN handling in `torch.argmax`. Scores are exact reals.
- Tensor shapes. `torch.argmax` over the `[1, n]` logits tensor is modelled as argmax over a sequence of `n` scores.
- `main.py`. It is chat-bot glue that calls into modules that are not part of this model (`Constants`, `Responses`, `Model`).
- Scorer failures. The model call at Bert.py:404-407 can raise, for example on input longer than the model accepts. `Scorer` is a total function, so that error path is not modelled. The "fails only when" clauses of `AnswerQuestion` and `AnswerQuestionConstrained` hold only for such a scorer.
