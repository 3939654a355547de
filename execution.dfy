/** The fail-fast execution of the extracted statements (app.py:92-102):
    each statement is sent to the graph store in order, `count` goes up by
    one after each success, and the first store error ends the whole batch.
    The store is abstracted as an oracle `fails`: `fails(i)` holds when the
    store raises an error on the statement at index `i`. */
module Execution {

  /** The first index in `i..n` whose statement fails, or `n` when none does. */
  function FirstFailureFrom(fails: nat -> bool, i: nat, n: nat): (k: nat)
    requires i <= n
    ensures i <= k <= n
    ensures forall j :: i <= j < k ==> !fails(j)
    ensures k < n ==> fails(k)
    decreases n - i
  {
    if i == n then n
    else if fails(i) then i
    else FirstFailureFrom(fails, i + 1, n)
  }

  /** The length of the longest prefix of a batch of `n` statements that
      the store accepts. */
  function SucceededPrefix(fails: nat -> bool, n: nat): nat
  {
    FirstFailureFrom(fails, 0, n)
  }

  /** The message the application shows after the batch (lines 97-102). */
  datatype Report = Executed(count: nat) | NoValidCypher | StoreError

  function ReportOf(count: nat, raised: bool): Report
  {
    if raised then StoreError
    else if count > 0 then Executed(count)
    else NoValidCypher
  }

  /** Lines 92-102: run the statements in order until the first error.
      `count` is the number of statements that succeeded, `raised` says
      whether the store raised an error, and `attempted` is the number of
      calls made to the store. */
  method ExecuteBatch(queries: seq<string>, fails: nat -> bool)
    returns (count: nat, raised: bool, attempted: nat)
    ensures count == SucceededPrefix(fails, |queries|)
    ensures raised <==> count < |queries|
    ensures attempted == if raised then count + 1 else count
  {
    count, raised, attempted := 0, false, 0;
    var k := 0;
    while k < |queries|
      invariant 0 <= k <= |queries|
      invariant count == k && attempted == k && !raised
      invariant forall j :: 0 <= j < k ==> !fails(j)
    {
      attempted := attempted + 1;
      if fails(k) {
        raised := true;
        break;
      }
      count := count + 1;
      k := k + 1;
    }
    assert raised ==> fails(count);
  }

  /** The count never exceeds the batch; it is the whole batch when no
      statement fails, and otherwise the index of the first failing one,
      after which nothing else is sent. */
  lemma SucceededPrefixMeaning(fails: nat -> bool, n: nat)
    ensures SucceededPrefix(fails, n) <= n
    ensures (forall j :: 0 <= j < n ==> !fails(j)) ==> SucceededPrefix(fails, n) == n
    ensures forall i :: 0 <= i < n && fails(i) && (forall j :: 0 <= j < i ==> !fails(j)) ==>
      SucceededPrefix(fails, n) == i
  {
  }

  /** Any prefix of the batch in which every statement succeeds is no
      longer than the count. */
  lemma SucceededPrefixIsLongest(fails: nat -> bool, n: nat, m: nat)
    requires m <= n
    requires forall j :: 0 <= j < m ==> !fails(j)
    ensures m <= SucceededPrefix(fails, n)
  {
  }

  /** Appending statements to a batch cannot shorten the prefix that succeeds,
      and once a statement in the batch fails, appending changes nothing. */
  lemma {:induction false} FirstFailureExtend(fails: nat -> bool, i: nat, n: nat, n': nat)
    requires i <= n <= n'
    ensures FirstFailureFrom(fails, i, n) <= FirstFailureFrom(fails, i, n')
    ensures FirstFailureFrom(fails, i, n) < n ==>
      FirstFailureFrom(fails, i, n') == FirstFailureFrom(fails, i, n)
    decreases n - i
  {
    if i < n && !fails(i) {
      FirstFailureExtend(fails, i + 1, n, n');
    }
  }

  /** The message is a success exactly when the batch is non-empty and no
      statement fails; it reports that nothing valid was generated exactly
      when the batch is empty; otherwise it reports the store error. */
  lemma ReportMeaning(fails: nat -> bool, n: nat)
    ensures var c := SucceededPrefix(fails, n);
      (ReportOf(c, c < n) == Executed(n) <==> n > 0 && forall j :: 0 <= j < n ==> !fails(j)) &&
      (ReportOf(c, c < n) == NoValidCypher <==> n == 0) &&
      (ReportOf(c, c < n) == StoreError <==> exists j :: 0 <= j < n && fails(j))
  {
  }

  /** When the store rejects the second statement, exactly one statement
      succeeds, whether the batch holds two statements or three. */
  lemma SecondOfThreeFails(fails: nat -> bool)
    requires !fails(0) && fails(1)
    ensures SucceededPrefix(fails, 2) == 1
    ensures SucceededPrefix(fails, 3) == 1
  {
  }
}
