/**
 * The interactive token prompt `ask_user` (main.py:19-23): it keeps reading
 * until an answer is non-empty. The reader is a finite sequence of answers;
 * when it runs out the model says so with None, where Python's input() would
 * raise EOFError.
 */
module Prompt {
  import opened Wrappers

  /** The first non-empty answer, if there is one. */
  function FirstNonEmpty(answers: seq<string>): (r: Option<string>)
    ensures r.None? <==> forall i :: 0 <= i < |answers| ==> answers[i] == ""
    ensures r.Some? ==> r.value != ""
    ensures r.Some? ==> exists k :: 0 <= k < |answers| && answers[k] == r.value &&
                                  forall j :: 0 <= j < k ==> answers[j] == ""
  {
    if |answers| == 0 then None
    else if answers[0] != "" then Some(answers[0])
    else FirstNonEmpty(answers[1..])
  }

  /** Whatever answer stands at a position after only empty ones is the one taken. */
  lemma {:induction false} FirstNonEmptyAt(answers: seq<string>, k: nat)
    requires k < |answers| && answers[k] != ""
    requires forall j :: 0 <= j < k ==> answers[j] == ""
    ensures FirstNonEmpty(answers) == Some(answers[k])
  {
    if k > 0 {
      assert answers[1..][k - 1] == answers[k];
      FirstNonEmptyAt(answers[1..], k - 1);
    }
  }

  /** `ask_user`: read answers until one is non-empty. */
  method AskUser(answers: seq<string>) returns (r: Option<string>)
    ensures r == FirstNonEmpty(answers)
    ensures r.Some? ==> r.value != ""
  {
    var resp := "";
    var i := 0;
    while resp == "" && i < |answers|
      invariant 0 <= i <= |answers|
      invariant resp == "" ==> forall j :: 0 <= j < i ==> answers[j] == ""
      invariant resp != "" ==> 0 < i && resp == answers[i - 1]
      invariant resp != "" ==> forall j :: 0 <= j < i - 1 ==> answers[j] == ""
    {
      resp := answers[i];
      i := i + 1;
    }
    if resp == "" {
      r := None;
    } else {
      FirstNonEmptyAt(answers, i - 1);
      r := Some(resp);
    }
  }
}
