/** Outcomes of the span-resolution pipeline: the exceptions the Python code can
    raise, as values, and the one error of the corrected span selection. */
module Outcomes {

  /** The failures of `answer_question`: one per Python exception that can escape
      it, plus `ScoreLengthMismatch`, the model's own error for the corrected
      selection, which has no counterpart in the Python code. */
  datatype Error =
    | SeparatorNotFound      // `list.index` raises ValueError: no [SEP] id in the input ids
    | EmptyScores            // `torch.argmax` on an empty score tensor raises
    | ScoreLengthMismatch    // corrected selection only: start and end scores not aligned
    | TokenIndexOutOfRange   // `tokens[answer_start]` or `tokens[i]` raises IndexError

  datatype Option<T> = None | Some(value: T)

  datatype Result<T> = Ok(value: T) | Err(error: Error)
}
