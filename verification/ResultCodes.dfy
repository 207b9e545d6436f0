/** The result a runner reports and the conclusion it becomes. */
module ResultCodes {
  import opened Text

  /** The upstream runner sends a number or a word. */
  datatype ResultCode = Number(code: int) | Word(text: string)

  function WordConclusion(lower: string): string {
    if lower == "succeeded" || lower == "succeededwithissues" then "success"
    else if lower == "failed" then "failure"
    else if lower == "cancelled" || lower == "canceled" || lower == "abandoned" then "cancelled"
    else if lower == "skipped" then "skipped"
    else "failure"
  }

  function ConclusionOf(result: ResultCode): (c: string)
    ensures c in {"success", "failure", "cancelled", "skipped"}
  {
    match result
    case Number(code) =>
      if code == 0 || code == 1 then "success"
      else if code == 2 then "failure"
      else if code == 3 || code == 5 then "cancelled"
      else if code == 4 then "skipped"
      else "failure"
    case Word(text) => WordConclusion(ToLower(text))
  }

  function StateToStatus(state: string): string {
    if state == "Completed" then "completed"
    else if state == "InProgress" then "in_progress"
    else if state == "Pending" then "queued"
    else state
  }

  /** Which results stand for which conclusion; whatever is not listed is a failure. */
  lemma ConclusionsOfResults(code: int, text: string)
    ensures ConclusionOf(Number(code)) == "success" <==> code in {0, 1}
    ensures ConclusionOf(Number(code)) == "cancelled" <==> code in {3, 5}
    ensures ConclusionOf(Number(code)) == "skipped" <==> code == 4
    ensures ConclusionOf(Word(text)) == "success" <==> ToLower(text) in {"succeeded", "succeededwithissues"}
    ensures ConclusionOf(Word(text)) == "cancelled" <==> ToLower(text) in {"cancelled", "canceled", "abandoned"}
    ensures ConclusionOf(Word(text)) == "skipped" <==> ToLower(text) == "skipped"
  {
  }

  /** The result a completion has by default, and the one the text of a null is. */
  lemma DefaultResults()
    ensures ConclusionOf(Word("Succeeded")) == "success" && ConclusionOf(Word("None")) == "failure"
  {
    assert ToLower("Succeeded") == "succeeded" && ToLower("None") == "none";
  }
}
