/** The generation path as the application runs it (app.py:83-102): the
    reply of the graph-generation model is turned into statements, and the
    statements are sent to the store until the first error. */
module Pipeline {
  import opened CypherExtract
  import opened Execution

  /** Lines 86-102, with the model's reply and the store's behaviour given
      as inputs: the statements sent, the number that succeeded, and the
      message shown. */
  method GeneratePath(rawResponse: string, fails: nat -> bool)
    returns (queries: seq<string>, count: nat, report: Report)
    ensures queries == Extracted(rawResponse)
    ensures count == SucceededPrefix(fails, |queries|)
    ensures report == Executed(|queries|) <==>
      queries != [] && forall j :: 0 <= j < |queries| ==> !fails(j)
    ensures report == NoValidCypher <==> queries == []
    ensures report == StoreError <==> exists j :: 0 <= j < |queries| && fails(j)
  {
    queries := ExtractCypher(rawResponse);
    var raised, attempted;
    count, raised, attempted := ExecuteBatch(queries, fails);
    report := ReportOf(count, raised);
    ReportMeaning(fails, |queries|);
  }
}
