/**
 * The five row rules of the dry run (TermManagerDryRunProcess), stated as
 * functions from the forest before a row to the forest after it and the
 * error the row raised, if any.
 *
 * Each rule performs its writes in the order the source does and re-reads a
 * record from the forest after every write, exactly as the source re-reads
 * the property of an object another write may have changed. A rule that
 * throws after some writes (merge, move parent) keeps those writes, as the
 * source's objects keep them.
 *
 * Vocabulary and field information comes from the site's storage; the model
 * takes it as an `Env` of plain functions.
 */
module Rules {
  import opened Php
  import opened Errors
  import opened Item
  import opened Terms
  import opened Tree

  /**
   * What the rules ask the site's storage:
   * - `vidOf`: the vid of getVocabulary(name), "" for a name no vocabulary has;
   * - `fieldAllowedVids`: the vids getFieldAllowedVocabularies(field) is keyed by;
   * - `taxonomyFields`: the names of the term reference fields, in storage order.
   */
  datatype Env = Env(
    vidOf: string -> string,
    fieldAllowedVids: string -> set<string>,
    taxonomyFields: seq<string>)

  /** getVocabularyAllowedFields(): the term reference fields, in order, whose allowed vocabularies include `vid`. */
  function AllowedFields(env: Env, fields: seq<string>, vid: string): (r: seq<string>)
    ensures |r| <= |fields|
    ensures forall x :: x in r <==> x in fields && vid in env.fieldAllowedVids(x)
  {
    if fields == [] then []
    else
      var rest := AllowedFields(env, fields[1..], vid);
      if vid in env.fieldAllowedVids(fields[0]) then [fields[0]] + rest else rest
  }

  function VocabularyAllowedFields(env: Env, vid: string): seq<string> {
    AllowedFields(env, env.taxonomyFields, vid)
  }

  /** Filtering a list of fields that are followed by more fields: the result for the whole list extends the result for the prefix. */
  lemma {:induction false} AllowedFieldsSnoc(env: Env, fields: seq<string>, x: string, vid: string)
    ensures AllowedFields(env, fields + [x], vid)
      == AllowedFields(env, fields, vid) + (if vid in env.fieldAllowedVids(x) then [x] else [])
  {
    if fields != [] {
      assert (fields + [x])[1..] == fields[1..] + [x];
      AllowedFieldsSnoc(env, fields[1..], x, vid);
    }
  }

  /** The loop of getVocabularyAllowedFields(): appends each allowed field in turn. */
  method GetVocabularyAllowedFields(env: Env, vid: string) returns (allowedFields: seq<string>)
    ensures allowedFields == VocabularyAllowedFields(env, vid)
  {
    allowedFields := [];
    var i := 0;
    while i < |env.taxonomyFields|
      invariant 0 <= i <= |env.taxonomyFields|
      invariant allowedFields == AllowedFields(env, env.taxonomyFields[..i], vid)
    {
      var field := env.taxonomyFields[i];
      AllowedFieldsSnoc(env, env.taxonomyFields[..i], field, vid);
      assert env.taxonomyFields[..i + 1] == env.taxonomyFields[..i] + [field];
      if vid in env.fieldAllowedVids(field) {
        allowedFields := allowedFields + [field];
      }
      i := i + 1;
    }
    assert env.taxonomyFields[..i] == env.taxonomyFields;
  }

  /** The forest after a rule and the error it raised, if any. */
  datatype Outcome = Outcome(forest: Forest, error: Option<Error>)

  function Fail(f: Forest, e: Error): Outcome {
    Outcome(f, Some(e))
  }

  /** The record create() makes: action create, no tid yet, no children. */
  function NewTerm(termName: string, vid: string, vocabularyName: string, parentTermName: string): (t: Term)
    ensures t.tid == "" && t.action == Create && t.CountsChildren() && !t.IsParent() && !t.locked
  {
    Term(vocabularyName, termName, "", vid, parentTermName, "", 0, {}, 0, Create, "", false, "", "", "", "", "")
  }

  /** The id delete and merge remove from the parent's child set: the tid, or the name of a term not created yet. */
  function ChildId(t: Term): string {
    if !IsEmpty(t.tid) then t.tid else t.termName
  }

  /** create(). */
  function CreateRule(f: Forest, env: Env, termName: string, vocabularyName: string, parentTermName: string): Outcome
  {
    match GetOriginalTreeItem(f, termName, vocabularyName, "")
    case Err(e) => Fail(f, e)
    case Ok(Some(_)) => Fail(f, AlreadyExists)
    case Ok(None) =>
      if !IsEmpty(parentTermName) && GetTreeItem(f, parentTermName, vocabularyName, "").Err? then
        Fail(f, GetTreeItem(f, parentTermName, vocabularyName, "").error)
      else if IsEmpty(env.vidOf(vocabularyName)) then
        Fail(f, InvalidVocabulary)
      else
        var f1 := WithItem(f, NewTerm(termName, env.vidOf(vocabularyName), vocabularyName, parentTermName));
        if IsEmpty(parentTermName) then Outcome(f1, None)
        else
          match GetTreeItem(f1, parentTermName, vocabularyName, "")
          case Err(e) => Fail(f1, e)
          case Ok(pl) => Outcome(f1[pl := f1[pl].AddChild(termName)], None)
  }

  /** delete(). */
  function DeleteRule(f: Forest, termName: string, vocabularyName: string, tid: string): Outcome
  {
    match GetTreeItem(f, termName, vocabularyName, tid)
    case Err(e) => Fail(f, e)
    case Ok(tl) =>
      var term := f[tl];
      if term.locked then Fail(f, Locked)
      else if term.IsParent() then Fail(f, HasChildren)
      else if IsEmpty(term.parentTermName) then
        Outcome(f[tl := term.(action := Delete)], None)
      else
        match GetTreeItem(f, term.parentTermName, vocabularyName, term.parentTid)
        case Err(e) => Fail(f, e)
        case Ok(pl) =>
          var f1 := f[pl := f[pl].RemoveChild(ChildId(term))];
          Outcome(f1[tl := f1[tl].(action := Delete)], None)
  }

  /** rename(): the name the row asks for, trimmed. */
  function RenameRule(f: Forest, termName: string, vocabularyName: string, newName: string, tid: string): Outcome
  {
    var name := Trim(newName);
    if IsEmpty(name) then Fail(f, EmptyNewName)
    else
      match GetTreeItem(f, termName, vocabularyName, tid)
      case Err(e) => Fail(f, e)
      case Ok(tl) =>
        var term := f[tl];
        match GetOriginalTreeItem(f, name, vocabularyName, tid)
        case Err(e) => Fail(f, e)
        case Ok(existing) =>
          if existing.Some? && (f[existing.value].tid != term.tid || termName == name) then
            Fail(f, AlreadyExists)
          else
            // The clone is stored first and the original marked afterwards; when
            // both share a place the stored clone is what the tree keeps.
            var clone := term.(termName := name, description := "Renamed from " + termName);
            var marked := f[tl := term.(action := Rename, newName := name)];
            Outcome(WithItem(marked, clone), None)
  }

  /**
   * getParents(): the parent names met walking up from `t` through active
   * records, looked up by name in `t`'s vocabulary. The walk stops at the
   * first parent the active lookup refuses; `fuel` bounds the walk.
   */
  function ParentNames(f: Forest, t: Term, fuel: nat): set<string>
    decreases fuel
  {
    if fuel == 0 then {}
    else
      match GetTreeItem(f, t.parentTermName, t.vocabularyName, "")
      case Err(_) => {}
      case Ok(pl) => {t.parentTermName} + ParentNames(f, f[pl], fuel - 1)
  }

  /** getParents() with one step per record of the forest. */
  function Ancestors(f: Forest, t: Term): set<string> {
    ParentNames(f, t, |f|)
  }

  /** The record the active lookup finds for `term`'s parent, when the term names one. */
  function CurrentParent(f: Forest, term: Term, vocabularyName: string): Option<Loc> {
    if IsEmpty(term.parentTermName) then None
    else match GetTreeItem(f, term.parentTermName, vocabularyName, term.parentTid)
      case Ok(cl) => Some(cl)
      case Err(_) => None
  }

  /**
   * "Remove term from parent" in moveParent() and merge(): when the record at
   * `tl` names a parent, look it up (this may throw) and remove `id` from its
   * children.
   */
  function Unlink(f: Forest, tl: Loc, vocabularyName: string, id: string): (r: Result<Forest>)
    requires tl in f
    ensures r.Ok? <==> IsEmpty(f[tl].parentTermName) || CurrentParent(f, f[tl], vocabularyName).Some?
    ensures r.Ok? ==> r.value.Keys == f.Keys
    ensures r.Ok? ==> r.value == (var cur := CurrentParent(f, f[tl], vocabularyName);
                                  if cur.Some? then f[cur.value := f[cur.value].RemoveChild(id)] else f)
  {
    var term := f[tl];
    if IsEmpty(term.parentTermName) then Ok(f)
    else
      match GetTreeItem(f, term.parentTermName, vocabularyName, term.parentTid)
      case Err(e) => Err(e)
      case Ok(cl) => Ok(f[cl := f[cl].RemoveChild(id)])
  }

  /**
   * The tail of moveParent() shared by both of its paths: unlink the term
   * from its current parent (a lookup that may throw after the new parent
   * gained the child), then record the new parent, if there is one, and the
   * action.
   */
  function DetachAndMark(f: Forest, tl: Loc, vocabularyName: string, newParent: Option<Loc>): (o: Outcome)
    requires tl in f
    requires newParent.Some? ==> newParent.value in f
    ensures o.forest.Keys == f.Keys
  {
    match Unlink(f, tl, vocabularyName, f[tl].tid)
    case Err(e) => Fail(f, e)
    case Ok(f2) =>
      var t2 := f2[tl];
      var t3 := if newParent.Some? then t2.(parentTermName := f2[newParent.value].termName,
                                            parentTid := f2[newParent.value].tid)
                else t2;
      Outcome(f2[tl := t3.(action := MoveParent)], None)
  }

  /** moveParent(). */
  function MoveParentRule(f: Forest, termName: string, vocabularyName: string, tid: string,
                          targetTermName: string, targetTid: string): Outcome
  {
    match GetTreeItem(f, termName, vocabularyName, tid)
    case Err(e) => Fail(f, e)
    case Ok(tl) =>
      var term := f[tl];
      if term.action == MoveParent then Fail(f, AlreadyMoved)
      else if IsEmpty(targetTermName) then DetachAndMark(f, tl, vocabularyName, None)
      else
        match GetTreeItem(f, targetTermName, vocabularyName, targetTid)
        case Err(e) => Fail(f, e)
        case Ok(pl) =>
          if f[pl].tid == term.tid then Fail(f, SelfParent)
          else if term.termName in Ancestors(f, f[pl]) then Fail(f, IsAncestor)
          else DetachAndMark(f[pl := f[pl].AddChild(term.tid)], tl, vocabularyName, Some(pl))
  }

  /**
   * The first of the comma-separated fields (each trimmed) whose allowed
   * vocabularies do not include `vid`, reported with the fields that do
   * allow it.
   */
  function FirstDisallowedField(env: Env, fields: seq<string>, vid: string): (r: Option<Error>)
    ensures r.None? <==> forall i :: 0 <= i < |fields| ==> vid in env.fieldAllowedVids(fields[i])
    ensures r.Some? ==> exists i :: (0 <= i < |fields| && vid !in env.fieldAllowedVids(fields[i])
      && r.value == FieldNotAllowed(fields[i], VocabularyAllowedFields(env, vid))
      && forall j :: 0 <= j < i ==> vid in env.fieldAllowedVids(fields[j]))
  {
    if fields == [] then None
    else if vid !in env.fieldAllowedVids(fields[0]) then
      Some(FieldNotAllowed(fields[0], VocabularyAllowedFields(env, vid)))
    else
      var r := FirstDisallowedField(env, fields[1..], vid);
      if r.Some? then
        var i :| 0 <= i < |fields[1..]| && vid !in env.fieldAllowedVids(fields[1..][i])
          && r.value == FieldNotAllowed(fields[1..][i], VocabularyAllowedFields(env, vid))
          && forall j :: 0 <= j < i ==> vid in env.fieldAllowedVids(fields[1..][j]);
        assert vid !in env.fieldAllowedVids(fields[i + 1])
          && forall j :: 0 <= j < i + 1 ==> vid in env.fieldAllowedVids(fields[j]);
        r
      else r
  }

  /** The field the loop of merge() stops at is the one the check reports: the first that refuses the vocabulary. */
  lemma FirstDisallowedAt(env: Env, fields: seq<string>, vid: string, i: nat)
    requires i < |fields| && vid !in env.fieldAllowedVids(fields[i])
    requires forall j :: 0 <= j < i ==> vid in env.fieldAllowedVids(fields[j])
    ensures FirstDisallowedField(env, fields, vid) == Some(FieldNotAllowed(fields[i], VocabularyAllowedFields(env, vid)))
  {
    var r := FirstDisallowedField(env, fields, vid);
    var k :| 0 <= k < |fields| && vid !in env.fieldAllowedVids(fields[k])
      && r.value == FieldNotAllowed(fields[k], VocabularyAllowedFields(env, vid))
      && forall j :: 0 <= j < k ==> vid in env.fieldAllowedVids(fields[j]);
    assert k == i;
  }

  /** merge() across vocabularies: `target_field` must name fields that all accept the target vocabulary. */
  function CrossVocabularyError(env: Env, targetVocabularyName: string, targetField: string): Option<Error>
  {
    var vid := env.vidOf(targetVocabularyName);
    if IsEmpty(targetField) then Some(MissingTargetField(VocabularyAllowedFields(env, vid)))
    else FirstDisallowedField(env, TrimAll(Explode(targetField, ',')), vid)
  }

  /** "Update new count on target": the target gets the source's node count and the source keeps none. */
  function CountsMoved(f: Forest, sl: Loc, gl: Loc): (g: Forest)
    requires sl in f && gl in f
    ensures g.Keys == f.Keys
    ensures sl != gl ==> g[gl].nodeCount == f[gl].nodeCount + f[sl].nodeCount
    ensures g[sl] == f[sl].(nodeCount := 0)
    ensures sl != gl ==> g[gl] == f[gl].(nodeCount := f[gl].nodeCount + f[sl].nodeCount)
    ensures forall l :: l in f && l != sl && l != gl ==> g[l] == f[l]
  {
    var f1 := f[gl := f[gl].(nodeCount := f[gl].nodeCount + f[sl].nodeCount)];
    f1[sl := f1[sl].(nodeCount := 0)]
  }

  /** The last writes of merge(): the source is marked merged into the target, which is then locked. */
  function MarkMerged(f: Forest, sl: Loc, gl: Loc): (g: Forest)
    requires sl in f && gl in f
    ensures g.Keys == f.Keys
    ensures sl != gl ==> g[sl] == f[sl].(action := Merge, targetTermName := f[gl].termName,
      targetVocabularyName := f[gl].vocabularyName, targetVid := f[gl].vid, targetTid := f[gl].tid)
    ensures sl != gl ==> g[gl] == f[gl].(locked := true)
    ensures forall l :: l in f && l != sl && l != gl ==> g[l] == f[l]
  {
    var f4 := f[sl := f[sl].(action := Merge)];
    var target := f4[gl];
    var f5 := f4[sl := f4[sl].(targetTermName := target.termName, targetVocabularyName := target.vocabularyName,
                               targetVid := target.vid, targetTid := target.tid)];
    f5[gl := f5[gl].(locked := true)]
  }

  /**
   * The writes merge() makes once every check passed: move the node count,
   * unlink the source from its parent (a lookup that may throw after the
   * counts moved), mark the source merged into the target and lock the
   * target.
   */
  function MergeWrites(f: Forest, sl: Loc, gl: Loc, vocabularyName: string): (o: Outcome)
    requires sl in f && gl in f
    ensures o.forest.Keys == f.Keys
  {
    var f2 := CountsMoved(f, sl, gl);
    match Unlink(f2, sl, vocabularyName, ChildId(f2[sl]))
    case Err(e) => Fail(f2, e)
    case Ok(f3) => Outcome(MarkMerged(f3, sl, gl), None)
  }

  /** merge(). */
  function MergeRule(f: Forest, env: Env, termName: string, vocabularyName: string, targetTermName: string,
                     targetVocabularyName: string, targetField: string, tid: string, targetTid: string): Outcome
  {
    if termName == targetTermName && vocabularyName == targetVocabularyName && tid == targetTid then
      Fail(f, SelfMerge)
    else
      match GetTreeItem(f, targetTermName, targetVocabularyName, targetTid)
      case Err(e) => Fail(f, e)
      case Ok(gl) =>
        if IsEmpty(f[gl].tid) then Fail(f, TargetNotCreated)
        else
          match GetTreeItem(f, termName, vocabularyName, tid)
          case Err(e) => Fail(f, e)
          case Ok(sl) =>
            if f[sl].locked then Fail(f, Locked)
            else if f[sl].IsParent() then Fail(f, HasChildren)
            else if targetVocabularyName != vocabularyName
                 && CrossVocabularyError(env, targetVocabularyName, targetField).Some? then
              Fail(f, CrossVocabularyError(env, targetVocabularyName, targetField).value)
            else MergeWrites(f, sl, gl, vocabularyName)
  }
}
