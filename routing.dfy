/** Intent routing (app.py:77-79, 83, 105): the router model's reply is
    lower-cased and trimmed; a reply mentioning "generate" selects the graph
    generation path, otherwise one mentioning "answer" selects the question
    answering path, and any other reply is kept as it is and selects neither. */
module Routing {
  import opened Text

  /** The path the application takes after routing (app.py:83 and 105). */
  datatype Intent = Generate | Answer | Unknown

  /** `reply.lower().strip()` */
  function Normalize(reply: string): string
  {
    Strip(Lower(reply))
  }

  /** Lines 77-79: the decision string, by substring priority. */
  function Decide(reply: string): string
  {
    var d := Normalize(reply);
    if Contains(d, "generate") then "generate"
    else if Contains(d, "answer") then "answer"
    else d
  }

  /** Lines 83 and 105: which branch a decision string takes. */
  function Dispatch(decision: string): Intent
  {
    if decision == "generate" then Generate
    else if decision == "answer" then Answer
    else Unknown
  }

  /** The branch taken for a router reply. */
  function Route(reply: string): Intent
  {
    Dispatch(Decide(reply))
  }

  /** The normalised reply has no ASCII capital letter and is its own trim. */
  lemma NormalizedIsLowerAndTrimmed(reply: string)
    ensures forall i :: 0 <= i < |Normalize(reply)| ==> !IsAsciiUpper(Normalize(reply)[i])
    ensures Strip(Normalize(reply)) == Normalize(reply)
  {
    var l := Lower(reply);
    LowerMeaning(reply);
    StripKeepsLower(l);
    StripFixpoint(l);
  }

  /** A string without ASCII capitals that is its own trim is already normalised. */
  lemma NormalizeFixed(s: string)
    requires forall i :: 0 <= i < |s| ==> !IsAsciiUpper(s[i])
    requires Strip(s) == s
    ensures Normalize(s) == s
  {
    LowerMeaning(s);
    assert Lower(s) == s;
  }

  /** Normalising twice is normalising once. */
  lemma NormalizeIdempotent(reply: string)
    ensures Normalize(Normalize(reply)) == Normalize(reply)
  {
    NormalizedIsLowerAndTrimmed(reply);
    NormalizeFixed(Normalize(reply));
  }

  /** The decision is "generate" exactly when the normalised reply mentions
      "generate", even if it also mentions "answer". */
  lemma DecideGenerate(reply: string)
    ensures Decide(reply) == "generate" <==> Contains(Normalize(reply), "generate")
  {
    ContainsItself("generate");
  }

  /** The decision is "answer" exactly when the normalised reply mentions
      "answer" and does not mention "generate". */
  lemma DecideAnswer(reply: string)
    ensures Decide(reply) == "answer" <==>
      !Contains(Normalize(reply), "generate") && Contains(Normalize(reply), "answer")
  {
    ContainsItself("answer");
  }

  /** A reply that mentions neither word is kept as normalised, and that
      string is then neither "generate" nor "answer". */
  lemma DecideOther(reply: string)
    requires !Contains(Normalize(reply), "generate") && !Contains(Normalize(reply), "answer")
    ensures Decide(reply) == Normalize(reply)
    ensures Decide(reply) != "generate" && Decide(reply) != "answer"
  {
    ContainsItself("generate");
    ContainsItself("answer");
  }

  /** The generation path is taken exactly when the normalised reply
      mentions "generate"; the answer path exactly when it mentions "answer"
      but not "generate"; otherwise neither path runs. */
  lemma RouteByPriority(reply: string)
    ensures Route(reply) == Generate <==> Contains(Normalize(reply), "generate")
    ensures Route(reply) == Answer <==>
      !Contains(Normalize(reply), "generate") && Contains(Normalize(reply), "answer")
    ensures Route(reply) == Unknown <==>
      !Contains(Normalize(reply), "generate") && !Contains(Normalize(reply), "answer")
  {
    DecideGenerate(reply);
    DecideAnswer(reply);
    if !Contains(Normalize(reply), "generate") && !Contains(Normalize(reply), "answer") {
      DecideOther(reply);
    }
  }

  /** Each decision word is already normalised. */
  lemma NormalizeKeyword(w: string)
    requires w == "generate" || w == "answer"
    ensures Normalize(w) == w
  {
    assert forall i :: 0 <= i < |w| ==> !IsAsciiUpper(w[i]);
    StripFixpoint(w);
    NormalizeFixed(w);
  }

  /** Each decision word routes to itself. */
  lemma DecideKeyword(w: string)
    requires w == "generate" || w == "answer"
    ensures Decide(w) == w
  {
    NormalizeKeyword(w);
    ContainsItself(w);
    if w == "answer" {
      TooLongToContain(w, "generate");
    }
  }

  /** Routing a decision again yields the same decision. */
  lemma DecideIdempotent(reply: string)
    ensures Decide(Decide(reply)) == Decide(reply)
  {
    var n := Normalize(reply);
    if Contains(n, "generate") {
      DecideKeyword("generate");
    } else if Contains(n, "answer") {
      DecideKeyword("answer");
    } else {
      NormalizeIdempotent(reply);
    }
  }
}
