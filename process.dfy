/**
 * TermManagerDryRunProcess: replays one sheet row against the tree. The row's
 * action picks a rule; an exception the rule throws becomes the row's error;
 * the row then takes the ids of the record its names point to, and is added
 * to the operation list whatever happened.
 *
 * The class performs the rules' writes one property at a time on the tree it
 * shares; each method is proved to leave the tree as the corresponding rule
 * function of the Rules module says.
 */
module Process {
  import opened Php
  import opened Errors
  import opened Item
  import opened Terms
  import opened Tree
  import opened Rules
  import opened Operations

  /** The rule a row's action selects, applied with the row's columns; other actions change nothing. */
  function RuleFor(f: Forest, env: Env, op: Operation): Outcome {
    match ParseAction(op.Get("action"))
    case Some(Merge) =>
      MergeRule(f, env, op.Get("term_name"), op.Get("vocabulary_name"), op.Get("target_term_name"),
                op.Get("target_vocabulary_name"), op.Get("target_field"), op.Get("tid"), op.Get("target_tid"))
    case Some(MoveParent) =>
      MoveParentRule(f, op.Get("term_name"), op.Get("vocabulary_name"), op.Get("tid"),
                     op.Get("target_term_name"), op.Get("target_tid"))
    case Some(Create) =>
      CreateRule(f, env, op.Get("term_name"), op.Get("vocabulary_name"), op.Get("parent_term_name"))
    case Some(Delete) =>
      DeleteRule(f, op.Get("term_name"), op.Get("vocabulary_name"), op.Get("tid"))
    case Some(Rename) =>
      RenameRule(f, op.Get("term_name"), op.Get("vocabulary_name"), op.Get("new_name"), op.Get("tid"))
    case _ => Outcome(f, None)
  }

  /** The row with the rule's error, when the rule threw. */
  function WithRuleError(op: Operation, err: Option<Error>): Operation {
    if err.Some? then op.(error := err) else op
  }

  /**
   * The ids the row takes from the record its names point to (looked up
   * whatever its action): tid, vid, target_vid and parent_tid always, and
   * target_tid only when the row left it empty. A lookup that throws replaces
   * the row's error; a key without a record leaves the row as it is.
   */
  function PostStep(f: Forest, op: Operation): Operation {
    match GetOriginalTreeItem(f, op.Get("term_name"), op.Get("vocabulary_name"), op.Get("tid"))
    case Err(e) => op.(error := Some(e))
    case Ok(None) => op
    case Ok(Some(l)) =>
      var term := f[l];
      var o1 := op.Assign("tid", term.tid).Assign("vid", term.vid)
                  .Assign("target_vid", term.targetVid).Assign("parent_tid", term.parentTid);
      if IsEmpty(o1.Get("target_tid")) then o1.Assign("target_tid", term.targetTid) else o1
  }

  /** processOperation(): the forest after the row and the row as the operation list records it. */
  function ProcessStep(f: Forest, env: Env, op: Operation): (Forest, Operation) {
    var out := RuleFor(f, env, op);
    (out.forest, PostStep(out.forest, WithRuleError(op, out.error)))
  }

  /** Rows processed in order by `step`: the final forest and the recorded rows. */
  function RunWith(f: Forest, step: (Forest, Operation) -> (Forest, Operation), ops: seq<Operation>): (Forest, seq<Operation>)
  {
    if ops == [] then (f, [])
    else
      var prev := RunWith(f, step, ops[..|ops| - 1]);
      var next := step(prev.0, ops[|ops| - 1]);
      (next.0, prev.1 + [next.1])
  }

  /** processOperation() as a step from one forest to the next. */
  function Stepper(env: Env): (Forest, Operation) -> (Forest, Operation) {
    (g, op) => ProcessStep(g, env, op)
  }

  /** A sheet's rows processed in order by processOperation(). */
  function Run(f: Forest, env: Env, ops: seq<Operation>): (Forest, seq<Operation>)
  {
    RunWith(f, Stepper(env), ops)
  }

  /** Running one more row: the step applied to the forest the earlier rows left, and one more recorded row. */
  lemma RunWithSnoc(f: Forest, step: (Forest, Operation) -> (Forest, Operation), ops: seq<Operation>, op: Operation)
    ensures RunWith(f, step, ops + [op]) ==
      (step(RunWith(f, step, ops).0, op).0, RunWith(f, step, ops).1 + [step(RunWith(f, step, ops).0, op).1])
  {
    assert (ops + [op])[..|ops|] == ops;
  }

  /** The columns the row takes from its record after the rule ran; every other column stays as the sheet gave it. */
  const IdColumns: set<string> := {"tid", "vid", "target_vid", "parent_tid", "target_tid"}

  ghost predicate KeepsSheetColumns(row: Operation, op: Operation) {
    forall k :: k !in IdColumns ==> row.Get(k) == op.Get(k)
  }

  /**
   * After the post-step, a row whose names point to a record carries that
   * record's ids (its own target_tid wins when not empty) and the error it
   * had; a lookup that throws leaves the row's columns and records the
   * lookup's error; a key without a record leaves the row as it was.
   */
  lemma PostStepIds(f: Forest, op: Operation)
    ensures KeepsSheetColumns(PostStep(f, op), op)
    ensures match GetOriginalTreeItem(f, op.Get("term_name"), op.Get("vocabulary_name"), op.Get("tid"))
      case Err(e) => PostStep(f, op) == op.(error := Some(e))
      case Ok(None) => PostStep(f, op) == op
      case Ok(Some(l)) =>
        var row := PostStep(f, op);
        row.Get("tid") == f[l].tid && row.Get("vid") == f[l].vid && row.Get("target_vid") == f[l].targetVid
        && row.Get("parent_tid") == f[l].parentTid
        && row.Get("target_tid") == (if IsEmpty(op.Get("target_tid")) then f[l].targetTid else op.Get("target_tid"))
        && row.error == op.error
  {
  }

  /**
   * The error a processed row is recorded with: the post-step lookup's
   * exception if it threw, else the rule's exception if it threw, else the
   * error the row brought along (an invalid action).
   */
  lemma RowError(f: Forest, env: Env, op: Operation)
    ensures var out := RuleFor(f, env, op);
      var lookup := GetOriginalTreeItem(out.forest, op.Get("term_name"), op.Get("vocabulary_name"), op.Get("tid"));
      ProcessStep(f, env, op).1.error ==
        if lookup.Err? then Some(lookup.error) else if out.error.Some? then out.error else op.error
  {
    var out := RuleFor(f, env, op);
    var row := WithRuleError(op, out.error);
    assert row.data == op.data;
    PostStepIds(out.forest, row);
  }

  /** A row whose action names no rule (empty or invalid) leaves the forest as it was. */
  lemma NoRuleNoChange(f: Forest, env: Env, op: Operation)
    requires ParseAction(op.Get("action")).None? || ParseAction(op.Get("action")) == Some(NoAction)
    ensures ProcessStep(f, env, op).0 == f
    ensures ProcessStep(f, env, op).1 == PostStep(f, op)
  {
  }

  /** No rule removes a record: a deleted, merged or renamed record stays in the tree as a tombstone. */
  lemma RuleKeepsRecords(f: Forest, env: Env, op: Operation)
    ensures f.Keys <= RuleFor(f, env, op).forest.Keys
  {
    match ParseAction(op.Get("action"))
    case Some(Merge) =>
      MergeKeepsRecords(f, env, op.Get("term_name"), op.Get("vocabulary_name"), op.Get("target_term_name"),
                op.Get("target_vocabulary_name"), op.Get("target_field"), op.Get("tid"), op.Get("target_tid"));
    case Some(MoveParent) =>
      MoveParentKeepsRecords(f, op.Get("term_name"), op.Get("vocabulary_name"), op.Get("tid"),
                             op.Get("target_term_name"), op.Get("target_tid"));
    case Some(Create) =>
      CreateKeepsRecords(f, env, op.Get("term_name"), op.Get("vocabulary_name"), op.Get("parent_term_name"));
    case Some(Delete) =>
      DeleteKeepsRecords(f, op.Get("term_name"), op.Get("vocabulary_name"), op.Get("tid"));
    case Some(Rename) =>
      RenameKeepsRecords(f, op.Get("term_name"), op.Get("vocabulary_name"), op.Get("new_name"), op.Get("tid"));
    case _ =>
  }

  lemma CreateKeepsRecords(f: Forest, env: Env, termName: string, vocabularyName: string, parentTermName: string)
    ensures f.Keys <= CreateRule(f, env, termName, vocabularyName, parentTermName).forest.Keys
  {
  }

  lemma DeleteKeepsRecords(f: Forest, termName: string, vocabularyName: string, tid: string)
    ensures f.Keys == DeleteRule(f, termName, vocabularyName, tid).forest.Keys
  {
  }

  lemma RenameKeepsRecords(f: Forest, termName: string, vocabularyName: string, newName: string, tid: string)
    ensures f.Keys <= RenameRule(f, termName, vocabularyName, newName, tid).forest.Keys
  {
  }

  lemma MoveParentKeepsRecords(f: Forest, termName: string, vocabularyName: string, tid: string,
                               targetTermName: string, targetTid: string)
    ensures f.Keys == MoveParentRule(f, termName, vocabularyName, tid, targetTermName, targetTid).forest.Keys
  {
  }

  lemma MergeKeepsRecords(f: Forest, env: Env, termName: string, vocabularyName: string, targetTermName: string,
                          targetVocabularyName: string, targetField: string, tid: string, targetTid: string)
    ensures f.Keys == MergeRule(f, env, termName, vocabularyName, targetTermName, targetVocabularyName,
                                targetField, tid, targetTid).forest.Keys
  {
  }

  /** Rows never remove records, however many are processed. */
  lemma {:induction false} RunKeepsRecords(f: Forest, env: Env, ops: seq<Operation>)
    ensures f.Keys <= Run(f, env, ops).0.Keys
  {
    if ops != [] {
      RunKeepsRecords(f, env, ops[..|ops| - 1]);
      RuleKeepsRecords(Run(f, env, ops[..|ops| - 1]).0, env, ops[|ops| - 1]);
    }
  }

  /** Row `i` recorded by a run is what `step` made of row `i` against the forest the earlier rows left. */
  lemma {:induction false} RunWithRowAt(f: Forest, step: (Forest, Operation) -> (Forest, Operation),
                                        ops: seq<Operation>, i: nat)
    requires i < |ops|
    ensures |RunWith(f, step, ops).1| == |ops|
    ensures RunWith(f, step, ops).1[i] == step(RunWith(f, step, ops[..i]).0, ops[i]).1
  {
    var n := |ops| - 1;
    RunWithLength(f, step, ops[..n]);
    if i < n {
      RunWithRowAt(f, step, ops[..n], i);
      assert ops[..n][..i] == ops[..i];
    }
  }

  lemma {:induction false} RunWithLength(f: Forest, step: (Forest, Operation) -> (Forest, Operation), ops: seq<Operation>)
    ensures |RunWith(f, step, ops).1| == |ops|
  {
    if ops != [] {
      RunWithLength(f, step, ops[..|ops| - 1]);
    }
  }

  /**
   * Every row is recorded, in order: row `i` is row `i` of the sheet after
   * the rule and post-step ran against the forest the earlier rows left.
   */
  lemma RunRowAt(f: Forest, env: Env, ops: seq<Operation>, i: nat)
    requires i < |ops|
    ensures |Run(f, env, ops).1| == |ops|
    ensures Run(f, env, ops).1[i] == ProcessStep(Run(f, env, ops[..i]).0, env, ops[i]).1
  {
    RunWithRowAt(f, Stepper(env), ops, i);
  }

  /** A recorded row keeps every column of the sheet row except the ids it takes from its record. */
  lemma RunKeepsSheetColumns(f: Forest, env: Env, ops: seq<Operation>, i: nat)
    requires i < |ops|
    ensures |Run(f, env, ops).1| == |ops|
    ensures KeepsSheetColumns(Run(f, env, ops).1[i], ops[i])
  {
    RunRowAt(f, env, ops, i);
    var g := Run(f, env, ops[..i]).0;
    var out := RuleFor(g, env, ops[i]);
    PostStepIds(out.forest, WithRuleError(ops[i], out.error));
  }


  class DryRunProcess {
    const env: Env
    const tree: TermTree
    const operationList: OperationList

    constructor (env: Env, tree: TermTree)
      ensures this.env == env && this.tree == tree
      ensures fresh(operationList) && operationList.operationList == [] && operationList.errorList == []
      ensures operationList.ErrorsTracked()
    {
      this.env := env;
      this.tree := tree;
      operationList := new OperationList();
    }

    /** rename(). */
    method Rename(termName: string, vocabularyName: string, newName0: string, tid: string) returns (err: Option<Error>)
      modifies tree
      ensures Outcome(tree.termTree, err) == RenameRule(old(tree.termTree), termName, vocabularyName, newName0, tid)
    {
      var newName := Trim(newName0);
      if IsEmpty(newName) {
        return Some(EmptyNewName);
      }
      var found := GetTreeItem(tree.termTree, termName, vocabularyName, tid);
      if found.Err? {
        return Some(found.error);
      }
      var tl := found.value;
      var term := tree.termTree[tl];
      var existing := GetOriginalTreeItem(tree.termTree, newName, vocabularyName, tid);
      if existing.Err? {
        return Some(existing.error);
      }
      if existing.value.Some? && (tree.termTree[existing.value.value].tid != term.tid || termName == newName) {
        return Some(AlreadyExists);
      }
      var renamedTerm := term.(termName := newName, description := "Renamed from " + termName);
      tree.AddTreeItem(renamedTerm);
      // When the clone took the original's place, the original object is no
      // longer in the tree and the two writes below reach nothing the tree holds.
      if KeyOf(renamedTerm) != tl {
        tree.Update(tl, tree.termTree[tl].(action := Action.Rename));
        tree.Update(tl, tree.termTree[tl].(newName := newName));
      }
      err := None;
    }

    /** create(). */
    method Create(termName: string, vocabularyName: string, parentTermName: string) returns (err: Option<Error>)
      modifies tree
      ensures Outcome(tree.termTree, err) == CreateRule(old(tree.termTree), env, termName, vocabularyName, parentTermName)
    {
      var existing := GetOriginalTreeItem(tree.termTree, termName, vocabularyName, "");
      if existing.Err? {
        return Some(existing.error);
      }
      if existing.value.Some? {
        return Some(AlreadyExists);
      }
      if !IsEmpty(parentTermName) {
        var parent := GetTreeItem(tree.termTree, parentTermName, vocabularyName, "");
        if parent.Err? {
          return Some(parent.error);
        }
      }
      var vid := env.vidOf(vocabularyName);
      if IsEmpty(vid) {
        return Some(InvalidVocabulary);
      }
      tree.AddTreeItem(NewTerm(termName, vid, vocabularyName, parentTermName));
      if !IsEmpty(parentTermName) {
        // The parent is looked up again after the store.
        var parent := GetTreeItem(tree.termTree, parentTermName, vocabularyName, "");
        if parent.Err? {
          return Some(parent.error);
        }
        tree.Update(parent.value, tree.termTree[parent.value].AddChild(termName));
      }
      err := None;
    }

    /** delete(), with assertNotLocked(). */
    method Delete(termName: string, vocabularyName: string, tid: string) returns (err: Option<Error>)
      modifies tree
      ensures Outcome(tree.termTree, err) == DeleteRule(old(tree.termTree), termName, vocabularyName, tid)
    {
      var found := GetTreeItem(tree.termTree, termName, vocabularyName, tid);
      if found.Err? {
        return Some(found.error);
      }
      var tl := found.value;
      var term := tree.termTree[tl];
      if term.locked {
        return Some(Locked);
      }
      if term.IsParent() {
        return Some(HasChildren);
      }
      if !IsEmpty(term.parentTermName) {
        var parent := GetTreeItem(tree.termTree, term.parentTermName, vocabularyName, term.parentTid);
        if parent.Err? {
          return Some(parent.error);
        }
        if !IsEmpty(term.tid) {
          tree.Update(parent.value, tree.termTree[parent.value].RemoveChild(term.tid));
        } else {
          tree.Update(parent.value, tree.termTree[parent.value].RemoveChild(term.termName));
        }
      }
      tree.Update(tl, tree.termTree[tl].(action := Action.Delete));
      err := None;
    }

    /** moveParent(), with getParents() evaluated as the Rules module's Ancestors. */
    method MoveParent(termName: string, vocabularyName: string, tid: string, targetTermName: string, targetTid: string)
      returns (err: Option<Error>)
      modifies tree
      ensures Outcome(tree.termTree, err)
        == MoveParentRule(old(tree.termTree), termName, vocabularyName, tid, targetTermName, targetTid)
    {
      var found := GetTreeItem(tree.termTree, termName, vocabularyName, tid);
      if found.Err? {
        return Some(found.error);
      }
      var tl := found.value;
      if tree.termTree[tl].action == Action.MoveParent {
        return Some(AlreadyMoved);
      }
      var newParent: Option<Loc> := None;
      if !IsEmpty(targetTermName) {
        var parent := GetTreeItem(tree.termTree, targetTermName, vocabularyName, targetTid);
        if parent.Err? {
          return Some(parent.error);
        }
        var pl := parent.value;
        if tree.termTree[pl].tid == tree.termTree[tl].tid {
          return Some(SelfParent);
        }
        if tree.termTree[tl].termName in Ancestors(tree.termTree, tree.termTree[pl]) {
          return Some(IsAncestor);
        }
        tree.Update(pl, tree.termTree[pl].AddChild(tree.termTree[tl].tid));
        newParent := Some(pl);
      }
      err := Detach(tl, vocabularyName, newParent);
    }

    /** The tail of moveParent(): leave the current parent, then record the new parent and the action. */
    method Detach(tl: Loc, vocabularyName: string, newParent: Option<Loc>) returns (err: Option<Error>)
      requires tl in tree.termTree
      requires newParent.Some? ==> newParent.value in tree.termTree
      modifies tree
      ensures Outcome(tree.termTree, err) == DetachAndMark(old(tree.termTree), tl, vocabularyName, newParent)
    {
      err := UnlinkFrom(tl, vocabularyName, tree.termTree[tl].tid);
      if err.Some? {
        return;
      }
      if newParent.Some? {
        var parent := tree.termTree[newParent.value];
        tree.Update(tl, tree.termTree[tl].(parentTermName := parent.termName));
        tree.Update(tl, tree.termTree[tl].(parentTid := parent.tid));
      }
      tree.Update(tl, tree.termTree[tl].(action := Action.MoveParent));
      err := None;
    }

    /**
     * The target-field check of merge() across vocabularies: the fields must
     * be given, and each of them, in order, must accept the target vocabulary.
     */
    method CheckTargetFields(targetVocabularyName: string, targetField: string) returns (err: Option<Error>)
      ensures err == CrossVocabularyError(env, targetVocabularyName, targetField)
    {
      var vid := env.vidOf(targetVocabularyName);
      if IsEmpty(targetField) {
        var validFields := GetVocabularyAllowedFields(env, vid);
        return Some(MissingTargetField(validFields));
      }
      var targetFields := TrimAll(Explode(targetField, ','));
      var i := 0;
      while i < |targetFields|
        invariant 0 <= i <= |targetFields|
        invariant forall j :: 0 <= j < i ==> vid in env.fieldAllowedVids(targetFields[j])
      {
        if vid !in env.fieldAllowedVids(targetFields[i]) {
          var validFields := GetVocabularyAllowedFields(env, vid);
          FirstDisallowedAt(env, targetFields, vid, i);
          return Some(FieldNotAllowed(targetFields[i], validFields));
        }
        i := i + 1;
      }
      err := None;
    }

    /** merge(), with assertNotLocked(). */
    method Merge(termName: string, vocabularyName: string, targetTermName: string, targetVocabularyName: string,
                 targetField: string, tid: string, targetTid: string) returns (err: Option<Error>)
      modifies tree
      ensures Outcome(tree.termTree, err) == MergeRule(old(tree.termTree), env, termName, vocabularyName,
                                                       targetTermName, targetVocabularyName, targetField, tid, targetTid)
    {
      if termName == targetTermName && vocabularyName == targetVocabularyName && tid == targetTid {
        return Some(SelfMerge);
      }
      var target := GetTreeItem(tree.termTree, targetTermName, targetVocabularyName, targetTid);
      if target.Err? {
        return Some(target.error);
      }
      var gl := target.value;
      if IsEmpty(tree.termTree[gl].tid) {
        return Some(TargetNotCreated);
      }
      var found := GetTreeItem(tree.termTree, termName, vocabularyName, tid);
      if found.Err? {
        return Some(found.error);
      }
      var sl := found.value;
      if tree.termTree[sl].locked {
        return Some(Locked);
      }
      if tree.termTree[sl].IsParent() {
        return Some(HasChildren);
      }
      if targetVocabularyName != vocabularyName {
        var fieldError := CheckTargetFields(targetVocabularyName, targetField);
        if fieldError.Some? {
          return fieldError;
        }
      }
      err := MergeInto(sl, gl, vocabularyName);
    }

    /** The writes of merge() once its checks passed. */
    method MergeInto(sl: Loc, gl: Loc, vocabularyName: string) returns (err: Option<Error>)
      requires sl in tree.termTree && gl in tree.termTree
      modifies tree
      ensures Outcome(tree.termTree, err) == MergeWrites(old(tree.termTree), sl, gl, vocabularyName)
    {
      ghost var f0 := tree.termTree;
      // Update new count on target.
      tree.Update(gl, tree.termTree[gl].(nodeCount := tree.termTree[gl].nodeCount + tree.termTree[sl].nodeCount));
      tree.Update(sl, tree.termTree[sl].(nodeCount := 0));
      ghost var f2 := tree.termTree;
      assert f2 == CountsMoved(f0, sl, gl);
      // Remove term from parent.
      err := UnlinkFrom(sl, vocabularyName, ChildId(tree.termTree[sl]));
      if err.None? {
        ghost var f3 := tree.termTree;
        assert Unlink(f2, sl, vocabularyName, ChildId(f2[sl])) == Ok(f3);
        MarkMergedInto(sl, gl);
      }
    }

    /** "Remove term from parent": the lookup of the record's parent may throw, and then nothing is written. */
    method UnlinkFrom(tl: Loc, vocabularyName: string, id: string) returns (err: Option<Error>)
      requires tl in tree.termTree
      modifies tree
      ensures match Unlink(old(tree.termTree), tl, vocabularyName, id)
              case Ok(g) => err.None? && tree.termTree == g
              case Err(e) => err == Some(e) && tree.termTree == old(tree.termTree)
    {
      var term := tree.termTree[tl];
      if !IsEmpty(term.parentTermName) {
        var parent := GetTreeItem(tree.termTree, term.parentTermName, vocabularyName, term.parentTid);
        if parent.Err? {
          return Some(parent.error);
        }
        tree.Update(parent.value, tree.termTree[parent.value].RemoveChild(id));
      }
      err := None;
    }

    /** The last writes of merge(): the action, the target data, then the target's lock. */
    method MarkMergedInto(sl: Loc, gl: Loc)
      requires sl in tree.termTree && gl in tree.termTree
      modifies tree
      ensures tree.termTree == MarkMerged(old(tree.termTree), sl, gl)
    {
      tree.Update(sl, tree.termTree[sl].(action := Action.Merge));
      var targetTerm := tree.termTree[gl];
      tree.Update(sl, tree.termTree[sl].(targetTermName := targetTerm.termName));
      tree.Update(sl, tree.termTree[sl].(targetVocabularyName := targetTerm.vocabularyName));
      tree.Update(sl, tree.termTree[sl].(targetVid := targetTerm.vid));
      tree.Update(sl, tree.termTree[sl].(targetTid := targetTerm.tid));
      tree.Update(gl, tree.termTree[gl].(locked := true));
    }

    /**
     * processOperation(): runs the rule the row's action names, records its
     * exception as the row's error, copies the ids of the row's record into
     * the row and adds the row to the operation list.
     */
    method ProcessOperation(operation: Operation)
      modifies tree, operationList
      ensures tree.termTree == ProcessStep(old(tree.termTree), env, operation).0
      ensures operationList.operationList == old(operationList.operationList) + [ProcessStep(old(tree.termTree), env, operation).1]
      ensures operationList.errorList == old(operationList.errorList) + EntryFor(ProcessStep(old(tree.termTree), env, operation).1)
      ensures operationList.position == old(operationList.position)
      ensures old(operationList.ErrorsTracked()) ==> operationList.ErrorsTracked()
    {
      var err := ApplyRule(operation);
      var op := operation;
      if err.Some? {
        op := op.(error := err);
      }
      op := TakeIds(op);
      operationList.Add(op);
    }

    /**
     * processOperation() as one more step of a run: if the forest and the list
     * are what running `ops` from `f0` and `list0` left, afterwards they are
     * what running `ops` and then `operation` leaves.
     */
    method ProcessNext(operation: Operation, ghost f0: Forest, ghost list0: seq<Operation>, ghost ops: seq<Operation>)
      requires tree.termTree == Run(f0, env, ops).0
      requires operationList.operationList == list0 + Run(f0, env, ops).1
      modifies tree, operationList
      ensures tree.termTree == Run(f0, env, ops + [operation]).0
      ensures operationList.operationList == list0 + Run(f0, env, ops + [operation]).1
      ensures old(operationList.ErrorsTracked()) ==> operationList.ErrorsTracked()
    {
      ghost var before := Run(f0, env, ops).0;
      ProcessOperation(operation);
      RunWithSnoc(f0, Stepper(env), ops, operation);
      assert Stepper(env)(before, operation) == ProcessStep(before, env, operation);
    }

    /** The switch of processOperation(): the rule the row's action names, if any, with the row's columns. */
    method ApplyRule(op: Operation) returns (err: Option<Error>)
      modifies tree
      ensures Outcome(tree.termTree, err) == RuleFor(old(tree.termTree), env, op)
    {
      err := None;
      var action := ParseAction(op.Get("action"));
      if action == Some(Action.Merge) {
        err := Merge(op.Get("term_name"), op.Get("vocabulary_name"), op.Get("target_term_name"),
                     op.Get("target_vocabulary_name"), op.Get("target_field"), op.Get("tid"), op.Get("target_tid"));
      } else if action == Some(Action.MoveParent) {
        err := MoveParent(op.Get("term_name"), op.Get("vocabulary_name"), op.Get("tid"),
                          op.Get("target_term_name"), op.Get("target_tid"));
      } else if action == Some(Action.Create) {
        err := Create(op.Get("term_name"), op.Get("vocabulary_name"), op.Get("parent_term_name"));
      } else if action == Some(Action.Delete) {
        err := Delete(op.Get("term_name"), op.Get("vocabulary_name"), op.Get("tid"));
      } else if action == Some(Action.Rename) {
        err := Rename(op.Get("term_name"), op.Get("vocabulary_name"), op.Get("new_name"), op.Get("tid"));
      }
    }

    /** The tail of processOperation(): the row takes the ids of the record its names point to. */
    method TakeIds(operation: Operation) returns (op: Operation)
      ensures op == PostStep(tree.termTree, operation)
    {
      op := operation;
      var original := GetOriginalTreeItem(tree.termTree, op.Get("term_name"), op.Get("vocabulary_name"), op.Get("tid"));
      if original.Err? {
        op := op.(error := Some(original.error));
      } else if original.value.Some? {
        var term := tree.termTree[original.value.value];
        op := op.Assign("tid", term.tid);
        op := op.Assign("vid", term.vid);
        op := op.Assign("target_vid", term.targetVid);
        op := op.Assign("parent_tid", term.parentTid);
        if IsEmpty(op.Get("target_tid")) {
          op := op.Assign("target_tid", term.targetTid);
        }
      }
    }
  }
}
