/**
 * TermManagerDryRun (src/DryRun): turns the rows of a sheet into operation
 * rows and hands those with an action to the process. Reading the file
 * (delimiter detection over its text, fgetcsv) is outside the model: the
 * header and the data rows arrive already split into cells.
 */
module DryRun {
  import opened Php
  import opened Errors
  import opened Item
  import opened Tree
  import opened Rules
  import opened Operations
  import opened Process

  /** dennis_term_manager_default_columns(): the columns a sheet may carry, in this order. */
  const DefaultColumns: seq<string> := [
    "vocabulary_name", "term_name", "tid", "path", "node_count", "term_child_count", "parent_term_name",
    "action", "target_term_name", "target_tid", "target_vocabulary_name", "target_field", "new_name", "redirect"]

  /** array_flip() of the header: each name to its column index. */
  function Flip(header: seq<string>): (columns: map<string, nat>)
  {
    if header == [] then map[] else Flip(header[..|header| - 1])[header[|header| - 1] := |header| - 1]
  }

  /** array_flip() keeps every name of the header, each at the index of its last occurrence. */
  lemma {:induction false} FlipLast(header: seq<string>)
    ensures forall name :: name in Flip(header) <==> name in header
    ensures forall name :: name in Flip(header) ==>
      Flip(header)[name] < |header| && header[Flip(header)[name]] == name
      && forall j :: Flip(header)[name] < j < |header| ==> header[j] != name
  {
    if header != [] {
      var n := |header| - 1;
      FlipLast(header[..n]);
      assert forall name :: name in header <==> name in header[..n] || name == header[n];
    }
  }

  /** The value a row gives a column at `index`: the trimmed cell, or "" when the row is too short. */
  function Cell(data: seq<string>, index: nat): string {
    if index < |data| then Trim(data[index]) else ""
  }

  /**
   * The operation the column loop of execute() builds from `data`, assigning
   * the columns of `cols` in order; an assignment that throws leaves its
   * error on the row and the loop goes on.
   */
  function RowFrom(columns: map<string, nat>, data: seq<string>, cols: seq<string>): Operation {
    if cols == [] then EmptyOperation
    else
      var prev := RowFrom(columns, data, cols[..|cols| - 1]);
      var column := cols[|cols| - 1];
      if column in columns then prev.Assign(column, Cell(data, columns[column])) else prev
  }

  /** The rows of a sheet that reach processOperation(): those whose mapped action is not empty. */
  function Processed(columns: map<string, nat>, rows: seq<seq<string>>): seq<Operation> {
    if rows == [] then []
    else
      var row := RowFrom(columns, rows[|rows| - 1], DefaultColumns);
      Processed(columns, rows[..|rows| - 1]) + (if IsEmpty(row.Get("action")) then [] else [row])
  }

  /**
   * A column of the list that the header names gets the trimmed cell (""
   * for a short row); a column the header lacks stays unset; nothing else
   * is set.
   */
  lemma {:induction false} RowColumns(columns: map<string, nat>, data: seq<string>, cols: seq<string>)
    ensures forall c :: c in RowFrom(columns, data, cols).data <==> c in cols && c in columns
    ensures forall c :: c in cols && c in columns ==> RowFrom(columns, data, cols).Get(c) == Cell(data, columns[c])
  {
    if cols != [] {
      RowColumns(columns, data, cols[..|cols| - 1]);
      assert forall c :: c in cols <==> c in cols[..|cols| - 1] || c == cols[|cols| - 1];
    }
  }

  /**
   * The row's error: set exactly when the action column is present and its
   * cell is not an allowed action, and then it names that value.
   */
  lemma {:induction false} RowError(columns: map<string, nat>, data: seq<string>, cols: seq<string>)
    ensures RowFrom(columns, data, cols).error ==
      if "action" in cols && "action" in columns && !IsAllowedAction(Cell(data, columns["action"]))
      then Some(InvalidAction(Cell(data, columns["action"]))) else None
  {
    if cols != [] {
      RowError(columns, data, cols[..|cols| - 1]);
      assert "action" in cols <==> "action" in cols[..|cols| - 1] || "action" == cols[|cols| - 1];
    }
  }

  /** The action a sheet row hands on: the trimmed cell under the last "action" header, "" without one. */
  lemma RowAction(header: seq<string>, data: seq<string>)
    ensures RowFrom(Flip(header), data, DefaultColumns).Get("action") ==
      if "action" in Flip(header) then Cell(data, Flip(header)["action"]) else ""
  {
    RowColumns(Flip(header), data, DefaultColumns);
    assert "action" in DefaultColumns;
  }

  /**
   * An action cell of "0" reads as empty: the row is neither processed nor
   * recorded, although "0" is not an allowed action.
   */
  lemma ZeroActionDropped(header: seq<string>, data: seq<string>)
    requires "action" in Flip(header) && Flip(header)["action"] < |data|
    requires Trim(data[Flip(header)["action"]]) == "0"
    ensures Processed(Flip(header), [data]) == []
    ensures RowFrom(Flip(header), data, DefaultColumns).error == Some(InvalidAction("0"))
  {
    RowAction(header, data);
    RowError(Flip(header), data, DefaultColumns);
    assert [data][..0] == [];
  }

  /** Processed rows a sheet adds one by one. */
  lemma ProcessedSnoc(columns: map<string, nat>, rows: seq<seq<string>>, data: seq<string>)
    ensures Processed(columns, rows + [data]) == Processed(columns, rows) +
      (var row := RowFrom(columns, data, DefaultColumns); if IsEmpty(row.Get("action")) then [] else [row])
  {
    assert (rows + [data])[..|rows|] == rows;
  }

  /** The run over the processed rows of a sheet with one more row. */
  lemma RunProcessedSnoc(f: Forest, step: (Forest, Operation) -> (Forest, Operation), columns: map<string, nat>,
                         rows: seq<seq<string>>, data: seq<string>)
    ensures var row := RowFrom(columns, data, DefaultColumns);
      var before := RunWith(f, step, Processed(columns, rows));
      RunWith(f, step, Processed(columns, rows + [data])) ==
        if IsEmpty(row.Get("action")) then before
        else (step(before.0, row).0, before.1 + [step(before.0, row).1])
  {
    ProcessedSnoc(columns, rows, data);
    var row := RowFrom(columns, data, DefaultColumns);
    if !IsEmpty(row.Get("action")) {
      RunWithSnoc(f, step, Processed(columns, rows), row);
    } else {
      assert Processed(columns, rows) + [] == Processed(columns, rows);
    }
  }

  class DryRun {
    const process: DryRunProcess

    constructor (process: DryRunProcess)
      ensures this.process == process
    {
      this.process := process;
    }

    /** The column loop of execute(): one operation built from one data row. */
    method MapRow(columns: map<string, nat>, data: seq<string>) returns (operation: Operation)
      ensures operation == RowFrom(columns, data, DefaultColumns)
    {
      operation := EmptyOperation;
      var i := 0;
      while i < |DefaultColumns|
        invariant 0 <= i <= |DefaultColumns|
        invariant operation == RowFrom(columns, data, DefaultColumns[..i])
      {
        var column := DefaultColumns[i];
        assert DefaultColumns[..i + 1][..i] == DefaultColumns[..i];
        if column in columns {
          var index := columns[column];
          operation := operation.Assign(column, if index < |data| then Trim(data[index]) else "");
        }
        i := i + 1;
      }
      assert DefaultColumns[..i] == DefaultColumns;
    }

    /**
     * The row loop of execute(): every data row is mapped through the
     * header, and the rows with an action are processed in order.
     */
    method Execute(header: seq<string>, rows: seq<seq<string>>)
      modifies process.tree, process.operationList
      ensures process.tree.termTree == Run(old(process.tree.termTree), process.env, Processed(Flip(header), rows)).0
      ensures process.operationList.operationList ==
        old(process.operationList.operationList) + Run(old(process.tree.termTree), process.env, Processed(Flip(header), rows)).1
      ensures old(process.operationList.ErrorsTracked()) ==> process.operationList.ErrorsTracked()
    {
      var columns := Flip(header);
      ghost var f0 := process.tree.termTree;
      ghost var list0 := process.operationList.operationList;
      var i := 0;
      while i < |rows|
        invariant 0 <= i <= |rows|
        invariant Executed(columns, rows[..i], f0, list0)
        invariant old(process.operationList.ErrorsTracked()) ==> process.operationList.ErrorsTracked()
      {
        ExecuteRow(columns, rows, i, f0, list0);
        i := i + 1;
      }
      assert rows[..i] == rows;
    }

    /** The state after the rows of `rows` were executed from forest `f0` and list `list0`. */
    ghost predicate Executed(columns: map<string, nat>, rows: seq<seq<string>>, f0: Forest, list0: seq<Operation>)
      reads process.tree, process.operationList
    {
      var run := Run(f0, process.env, Processed(columns, rows));
      process.tree.termTree == run.0 && process.operationList.operationList == list0 + run.1
    }

    /**
     * One pass of the row loop of execute(): map row `i`, and process it
     * when its action is not empty, which extends the run by that row.
     */
    method ExecuteRow(columns: map<string, nat>, rows: seq<seq<string>>, i: nat, ghost f0: Forest, ghost list0: seq<Operation>)
      requires i < |rows| && Executed(columns, rows[..i], f0, list0)
      modifies process.tree, process.operationList
      ensures Executed(columns, rows[..i + 1], f0, list0)
      ensures old(process.operationList.ErrorsTracked()) ==> process.operationList.ErrorsTracked()
    {
      var operation := MapRow(columns, rows[i]);
      assert rows[..i + 1] == rows[..i] + [rows[i]];
      ProcessedSnoc(columns, rows[..i], rows[i]);
      if !IsEmpty(operation.Get("action")) {
        // Only process operations with actions.
        process.ProcessNext(operation, f0, list0, Processed(columns, rows[..i]));
      } else {
        assert Processed(columns, rows[..i + 1]) == Processed(columns, rows[..i]);
      }
    }
  }
}
