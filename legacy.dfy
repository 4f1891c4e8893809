/**
 * The older, monolithic TermManagerDryRun (src/TermManagerDryRun.php). Its
 * rules and its post-step are those of the process, but its processOperation()
 * guards the merge with a catch of the unqualified class name Exception inside the namespace
 * Drupal\dennis_term_manager, which names a class that does not exist, and
 * the cross-vocabulary checks throw the equally unqualified ErrorException.
 * Neither is caught, so a failing merge row leaves the row loop of execute()
 * and ends the run: that row and every row after it are never recorded.
 */
module Legacy {
  import opened Php
  import opened Errors
  import opened Item
  import opened Tree
  import opened Rules
  import opened Operations
  import opened Process

  /**
   * The rule as it reaches the caller of processOperation(): a merge's
   * failure escapes, with whatever the merge had written; every other rule's
   * failure is caught on the row, so nothing escapes.
   */
  function Escape(env: Env): (Forest, Operation) -> Outcome {
    (g: Forest, op: Operation) => if ParseAction(op.Get("action")) == Some(Action.Merge) then RuleFor(g, env, op) else Outcome(g, None)
  }

  /** Where a legacy run ends: the forest, the recorded rows, and the exception that ended it, if one did. */
  datatype LegacyOutcome = LegacyOutcome(forest: Forest, rows: seq<Operation>, escaped: Option<Error>)

  /** Rows processed in order by `step` until `escape` reports an exception, which ends the run. */
  function LegacyRunWith(f: Forest, step: (Forest, Operation) -> (Forest, Operation),
                         escape: (Forest, Operation) -> Outcome, ops: seq<Operation>): LegacyOutcome
    decreases |ops|
  {
    if ops == [] then LegacyOutcome(f, [], None)
    else if escape(f, ops[0]).error.Some? then LegacyOutcome(escape(f, ops[0]).forest, [], escape(f, ops[0]).error)
    else
      var s := step(f, ops[0]);
      var rest := LegacyRunWith(s.0, step, escape, ops[1..]);
      LegacyOutcome(rest.forest, [s.1] + rest.rows, rest.escaped)
  }

  /** The legacy engine over a sheet's processed rows: rows are recorded in order until a merge throws. */
  function LegacyRun(f: Forest, env: Env, ops: seq<Operation>): LegacyOutcome {
    LegacyRunWith(f, Stepper(env), Escape(env), ops)
  }

  /** Running a row and then the others: the run read from the front. */
  lemma {:induction false} RunWithCons(f: Forest, step: (Forest, Operation) -> (Forest, Operation), op: Operation, ops: seq<Operation>)
    ensures var g := step(f, op).0;
      RunWith(f, step, [op] + ops) == (RunWith(g, step, ops).0, [step(f, op).1] + RunWith(g, step, ops).1)
    decreases |ops|
  {
    if ops == [] {
      var out := step(f, op);
      assert [op] + ops == [op] && [op][..0] == [];
      assert RunWith(f, step, []) == (f, []);
      assert RunWith(f, step, [op]) == (out.0, [] + [out.1]);
      assert RunWith(out.0, step, ops) == (out.0, []);
      assert [] + [out.1] == [out.1] + [];
    } else {
      var n := |ops| - 1;
      var all := [op] + ops;
      assert all[..|all| - 1] == [op] + ops[..n];
      assert all[|all| - 1] == ops[n];
      RunWithCons(f, step, op, ops[..n]);
      var g := step(f, op).0;
      var prev := RunWith(g, step, ops[..n]);
      assert RunWith(g, step, ops) == (step(prev.0, ops[n]).0, prev.1 + [step(prev.0, ops[n]).1]);
      assert [step(f, op).1] + prev.1 + [step(prev.0, ops[n]).1] == [step(f, op).1] + (prev.1 + [step(prev.0, ops[n]).1]);
    }
  }

  /** A run that nothing ended is the run without the escape. */
  lemma {:induction false} LegacyAgreesWith(f: Forest, step: (Forest, Operation) -> (Forest, Operation),
                                            escape: (Forest, Operation) -> Outcome, ops: seq<Operation>)
    requires LegacyRunWith(f, step, escape, ops).escaped.None?
    ensures (LegacyRunWith(f, step, escape, ops).forest, LegacyRunWith(f, step, escape, ops).rows) == RunWith(f, step, ops)
    decreases |ops|
  {
    if ops != [] {
      LegacyAgreesWith(step(f, ops[0]).0, step, escape, ops[1..]);
      RunWithCons(f, step, ops[0], ops[1..]);
      assert [ops[0]] + ops[1..] == ops;
    }
  }

  /** A run that an escape ended holds exactly the rows before the one that escaped. */
  lemma {:induction false} LegacyStopsWith(f: Forest, step: (Forest, Operation) -> (Forest, Operation),
                                           escape: (Forest, Operation) -> Outcome, ops: seq<Operation>)
    requires LegacyRunWith(f, step, escape, ops).escaped.Some?
    ensures var r := LegacyRunWith(f, step, escape, ops);
      |r.rows| < |ops|
      && r.rows == RunWith(f, step, ops[..|r.rows|]).1
      && r.escaped == escape(RunWith(f, step, ops[..|r.rows|]).0, ops[|r.rows|]).error
    decreases |ops|
  {
    var k := |LegacyRunWith(f, step, escape, ops).rows|;
    if escape(f, ops[0]).error.None? {
      LegacyStopsWith(step(f, ops[0]).0, step, escape, ops[1..]);
      var k' := k - 1;
      RunWithCons(f, step, ops[0], ops[1..][..k']);
      assert [ops[0]] + ops[1..][..k'] == ops[..k];
      assert ops[1..][k'] == ops[k];
    } else {
      assert ops[..0] == [];
    }
  }

  /** Without a merge that throws, the legacy engine does exactly what the process does. */
  lemma LegacyAgrees(f: Forest, env: Env, ops: seq<Operation>)
    requires LegacyRun(f, env, ops).escaped.None?
    ensures (LegacyRun(f, env, ops).forest, LegacyRun(f, env, ops).rows) == Run(f, env, ops)
  {
    LegacyAgreesWith(f, Stepper(env), Escape(env), ops);
  }

  /**
   * When a merge throws, the legacy run has recorded exactly the rows before
   * it, as the process would have, and the next row is a merge whose rule
   * failed with that exception.
   */
  lemma LegacyStops(f: Forest, env: Env, ops: seq<Operation>)
    requires LegacyRun(f, env, ops).escaped.Some?
    ensures var k := |LegacyRun(f, env, ops).rows|;
      k < |ops|
      && LegacyRun(f, env, ops).rows == Run(f, env, ops[..k]).1
      && ParseAction(ops[k].Get("action")) == Some(Action.Merge)
      && LegacyRun(f, env, ops).escaped == RuleFor(Run(f, env, ops[..k]).0, env, ops[k]).error
  {
    LegacyStopsWith(f, Stepper(env), Escape(env), ops);
  }

  /** A row that merges a term with itself: the merge's first check throws. */
  predicate IsSelfMerge(op: Operation) {
    ParseAction(op.Get("action")) == Some(Action.Merge)
    && op.Get("term_name") == op.Get("target_term_name")
    && op.Get("vocabulary_name") == op.Get("target_vocabulary_name")
    && op.Get("tid") == op.Get("target_tid")
  }

  /**
   * A sheet that opens with a self-merge: the legacy engine records no row
   * at all, while the process records every row of the sheet.
   */
  lemma SelfMergeEndsLegacyRun(f: Forest, env: Env, op: Operation, rest: seq<Operation>)
    requires IsSelfMerge(op)
    ensures LegacyRun(f, env, [op] + rest) == LegacyOutcome(f, [], Some(SelfMerge))
    ensures |Run(f, env, [op] + rest).1| == 1 + |rest|
  {
    assert Escape(env)(f, op) == Outcome(f, Some(SelfMerge));
    assert ([op] + rest)[0] == op;
    RunWithLength(f, Stepper(env), [op] + rest);
  }

  /** The self-merge row of the finding: merge "Tags > News" into itself. */
  const SelfMergeRow: Operation := Operation(
    map["action" := "merge", "vocabulary_name" := "Tags", "term_name" := "News",
        "target_vocabulary_name" := "Tags", "target_term_name" := "News"], None)

  /** The one-row sheet holding only the self-merge: nothing recorded by the legacy engine, one row by the process. */
  lemma SelfMergeRowLost(f: Forest, env: Env)
    ensures LegacyRun(f, env, [SelfMergeRow]).rows == []
    ensures LegacyRun(f, env, [SelfMergeRow]).escaped == Some(SelfMerge)
    ensures |Run(f, env, [SelfMergeRow]).1| == 1
  {
    assert IsSelfMerge(SelfMergeRow);
    SelfMergeEndsLegacyRun(f, env, SelfMergeRow, []);
    assert [SelfMergeRow] + [] == [SelfMergeRow];
  }

  class LegacyDryRun {
    const process: DryRunProcess

    constructor (process: DryRunProcess)
      ensures this.process == process
    {
      this.process := process;
    }

    /**
     * processOperation() of the legacy engine: as the process's, except that
     * a failing merge returns its exception to the caller instead of
     * recording it, and the row is not added.
     */
    method ProcessOperation(operation: Operation) returns (escaped: Option<Error>)
      modifies process.tree, process.operationList
      ensures escaped == Escape(process.env)(old(process.tree.termTree), operation).error
      ensures escaped.Some? ==>
        process.tree.termTree == Escape(process.env)(old(process.tree.termTree), operation).forest
        && process.operationList.operationList == old(process.operationList.operationList)
      ensures escaped.None? ==>
        process.tree.termTree == ProcessStep(old(process.tree.termTree), process.env, operation).0
        && process.operationList.operationList
           == old(process.operationList.operationList) + [ProcessStep(old(process.tree.termTree), process.env, operation).1]
    {
      var err := process.ApplyRule(operation);
      if err.Some? && ParseAction(operation.Get("action")) == Some(Action.Merge) {
        return err;
      }
      var op := operation;
      if err.Some? {
        op := op.(error := err);
      }
      op := process.TakeIds(op);
      process.operationList.Add(op);
      escaped := None;
    }
  }
}
