/**
 * Console prompts read answers one line at a time until one is acceptable. The lines the
 * user would type are given as a finite sequence; when it runs out before an acceptable
 * answer, the prompt is still waiting (`Exhausted`) and nothing that follows it happens.
 */
module Prompt {
  import opened Maybe

  /** What a prompt loop ends with: the accepted value after `used` answers were read. */
  datatype Reply<T> = Answered(value: T, used: nat) | Exhausted

  /** `answer.lower() == 'y'`: only "y" and "Y" lower-case to "y". */
  predicate IsYes(answer: string) {
    answer == "y" || answer == "Y"
  }

  /** `answer.lower() == 'n'`. */
  predicate IsNo(answer: string) {
    answer == "n" || answer == "N"
  }

  /** An answer that ends the confirmation loop: empty, yes or no. */
  predicate Decides(answer: string) {
    |answer| == 0 || IsYes(answer) || IsNo(answer)
  }

  /** Index of the first answer satisfying `accept`, if there is one. */
  function FirstWhere(answers: seq<string>, accept: string -> bool): (r: Option<nat>)
    ensures r.Some? ==> r.value < |answers| && accept(answers[r.value])
    ensures r.Some? ==> forall j :: 0 <= j < r.value ==> !accept(answers[j])
    ensures r.None? ==> forall j :: 0 <= j < |answers| ==> !accept(answers[j])
  {
    if |answers| == 0 then None
    else if accept(answers[0]) then Some(0)
    else
      match FirstWhere(answers[1..], accept)
      case None => None
      case Some(k) => Some(k + 1)
  }

  /**
   * The "save them? (y/n)" loop: the first answer that is empty, "y" or "n" in either
   * case decides, and the result is true exactly when that answer is "y" or "Y".
   */
  function Confirmation(answers: seq<string>): (r: Reply<bool>)
    ensures r.Answered? ==> 1 <= r.used <= |answers| && Decides(answers[r.used - 1])
    ensures r.Answered? ==> forall j :: 0 <= j < r.used - 1 ==> !Decides(answers[j])
    ensures r.Answered? ==> (r.value <==> IsYes(answers[r.used - 1]))
    ensures r.Exhausted? <==> forall j :: 0 <= j < |answers| ==> !Decides(answers[j])
  {
    match FirstWhere(answers, Decides)
    case None => Exhausted
    case Some(k) => Answered(IsYes(answers[k]), k + 1)
  }

  /** The confirmation loop ends on a "y": what happens next is saving. */
  predicate Accepts(answers: seq<string>) {
    var c := Confirmation(answers);
    c.Answered? && c.value
  }

  /** An empty first answer declines at once, whatever follows it. */
  lemma EmptyAnswerDeclines(answers: seq<string>)
    requires |answers| > 0 && answers[0] == ""
    ensures Confirmation(answers) == Answered(false, 1)
  {
  }

  /** Answers that do not decide are skipped: they only delay the decision. */
  lemma {:induction false} UndecidedAnswersSkipped(noise: seq<string>, answers: seq<string>)
    requires forall j :: 0 <= j < |noise| ==> !Decides(noise[j])
    ensures Confirmation(noise + answers) ==
      match Confirmation(answers)
      case Exhausted => Exhausted
      case Answered(v, k) => Answered(v, k + |noise|)
  {
    var all := noise + answers;
    match Confirmation(answers)
    case Exhausted =>
      forall j | 0 <= j < |all| ensures !Decides(all[j]) {
        if j >= |noise| { assert all[j] == answers[j - |noise|]; }
      }
    case Answered(v, k) =>
      var m := k - 1 + |noise|;
      assert all[m] == answers[k - 1];
      forall j | 0 <= j < m ensures !Decides(all[j]) {
        if j >= |noise| { assert all[j] == answers[j - |noise|]; }
      }
  }

  /**
   * `_ask_confirmation()`: reads an answer, and reads again while it is non-empty and
   * neither "y" nor "n" in either case; the answer that ends the loop is "y" or not.
   */
  method AskConfirmation(answers: seq<string>) returns (r: Reply<bool>)
    ensures r == Confirmation(answers)
  {
    if |answers| == 0 {
      return Exhausted;
    }
    var i := 0;
    var answer := answers[0];
    while |answer| > 0 && !IsNo(answer) && !IsYes(answer)
      invariant 0 <= i < |answers| && answer == answers[i]
      invariant forall j :: 0 <= j < i ==> !Decides(answers[j])
      decreases |answers| - i
    {
      if i + 1 == |answers| {
        return Exhausted;
      }
      i := i + 1;
      answer := answers[i];
    }
    r := Answered(IsYes(answer), i + 1);
  }
}
