/**
 * What the row rules promise: when each one succeeds, what it changes when
 * it does, and that a rejected row leaves the forest as it found it (or,
 * for the two rules that throw part-way, exactly which writes remain).
 */
module RuleProperties {
  import opened Php
  import opened Errors
  import opened Item
  import opened Terms
  import opened Tree
  import opened Rules

  // ---------------------------------------------------------------- create

  /**
   * create() succeeds exactly when no record at all (tombstones included)
   * sits at the trimmed (vocabulary, name) key, the parent, if named, is
   * active, and the vocabulary has a vid.
   */
  lemma CreateSucceedsIff(f: Forest, env: Env, termName: string, vocabularyName: string, parentTermName: string)
    ensures CreateRule(f, env, termName, vocabularyName, parentTermName).error.None? <==>
      (Tids(f, Trim(vocabularyName), Trim(termName)) == {}
       && (IsEmpty(parentTermName) || GetTreeItem(f, parentTermName, vocabularyName, "").Ok?)
       && !IsEmpty(env.vidOf(vocabularyName)))
  {
    if Tids(f, Trim(vocabularyName), Trim(termName)) == {} && !IsEmpty(parentTermName)
       && GetTreeItem(f, parentTermName, vocabularyName, "").Ok? {
      CreateParentFound(f, env, termName, vocabularyName, parentTermName);
    }
  }

  /** The second parent lookup of create() finds what the first one found: the new record sits under another key. */
  lemma CreateParentFound(f: Forest, env: Env, termName: string, vocabularyName: string, parentTermName: string)
    requires Tids(f, Trim(vocabularyName), Trim(termName)) == {}
    requires !IsEmpty(parentTermName) && GetTreeItem(f, parentTermName, vocabularyName, "").Ok?
    ensures var t := NewTerm(termName, env.vidOf(vocabularyName), vocabularyName, parentTermName);
      GetTreeItem(WithItem(f, t), parentTermName, vocabularyName, "") == GetTreeItem(f, parentTermName, vocabularyName, "")
  {
    var t := NewTerm(termName, env.vidOf(vocabularyName), vocabularyName, parentTermName);
    var pl := GetTreeItem(f, parentTermName, vocabularyName, "").value;
    assert pl.tidKey in Tids(f, Trim(vocabularyName), Trim(parentTermName));
    LookupFrame(f, KeyOf(t), t, parentTermName, vocabularyName, "");
  }

  /** A rejected create() changes nothing. */
  lemma CreateFailsUnchanged(f: Forest, env: Env, termName: string, vocabularyName: string, parentTermName: string)
    ensures var r := CreateRule(f, env, termName, vocabularyName, parentTermName);
      r.error.Some? ==> r.forest == f
  {
    if Tids(f, Trim(vocabularyName), Trim(termName)) == {} && !IsEmpty(parentTermName)
       && GetTreeItem(f, parentTermName, vocabularyName, "").Ok? {
      CreateParentFound(f, env, termName, vocabularyName, parentTermName);
    }
  }

  /**
   * A successful create() adds one record, with action create and an empty
   * tid, at the new key; the parent, if named, gains the term's name as a
   * child; no other record changes.
   */
  lemma CreateResult(f: Forest, env: Env, termName: string, vocabularyName: string, parentTermName: string)
    requires CreateRule(f, env, termName, vocabularyName, parentTermName).error.None?
    ensures var r := CreateRule(f, env, termName, vocabularyName, parentTermName).forest;
      var at := Loc(Trim(vocabularyName), Trim(termName), "");
      at !in f && r.Keys == f.Keys + {at}
      && r[at] == NewTerm(termName, env.vidOf(vocabularyName), vocabularyName, parentTermName)
      && (IsEmpty(parentTermName) ==> forall l :: l in f ==> r[l] == f[l])
      && (!IsEmpty(parentTermName) ==>
            var pl := GetTreeItem(f, parentTermName, vocabularyName, "").value;
            r[pl] == f[pl].AddChild(termName) && forall l :: l in f && l != pl ==> r[l] == f[l])
  {
    CreateSucceedsIff(f, env, termName, vocabularyName, parentTermName);
    if !IsEmpty(parentTermName) {
      CreateParentFound(f, env, termName, vocabularyName, parentTermName);
    }
  }

  /** After a successful create() the new term is found by name, so later rows can reference it. */
  lemma CreateThenFind(f: Forest, env: Env, termName: string, vocabularyName: string, parentTermName: string)
    requires CreateRule(f, env, termName, vocabularyName, parentTermName).error.None?
    ensures GetTreeItem(CreateRule(f, env, termName, vocabularyName, parentTermName).forest, termName, vocabularyName, "")
      == Ok(Loc(Trim(vocabularyName), Trim(termName), ""))
  {
    var r := CreateRule(f, env, termName, vocabularyName, parentTermName).forest;
    var vk, tk := Trim(vocabularyName), Trim(termName);
    CreateResult(f, env, termName, vocabularyName, parentTermName);
    CreateSucceedsIff(f, env, termName, vocabularyName, parentTermName);
    assert Tids(r, vk, tk) == {""} by {
      forall x | x in Tids(r, vk, tk) ensures x == "" {
        assert Loc(vk, tk, x) in r;
        assert Loc(vk, tk, x) !in f;
      }
    }
  }

  // ---------------------------------------------------------------- delete

  /**
   * delete() succeeds exactly when the term is active, not locked, has no
   * children, and its parent, if it names one, is active.
   */
  lemma DeleteSucceedsIff(f: Forest, termName: string, vocabularyName: string, tid: string)
    ensures DeleteRule(f, termName, vocabularyName, tid).error.None? <==>
      (var r := GetTreeItem(f, termName, vocabularyName, tid);
       r.Ok? && !f[r.value].locked && !f[r.value].IsParent()
       && (IsEmpty(f[r.value].parentTermName)
           || GetTreeItem(f, f[r.value].parentTermName, vocabularyName, f[r.value].parentTid).Ok?))
  {
  }

  /** A rejected delete() changes nothing. */
  lemma DeleteFailsUnchanged(f: Forest, termName: string, vocabularyName: string, tid: string)
    ensures var r := DeleteRule(f, termName, vocabularyName, tid);
      r.error.Some? ==> r.forest == f
  {
  }

  /**
   * A successful delete() keeps the record, marked delete, and removes it
   * from its parent's child set (by tid, or by name when it has no tid); no
   * other record changes.
   */
  lemma DeleteResult(f: Forest, termName: string, vocabularyName: string, tid: string)
    requires ChildCountsKept(f)
    requires DeleteRule(f, termName, vocabularyName, tid).error.None?
    ensures var r := DeleteRule(f, termName, vocabularyName, tid).forest;
      var tl := GetTreeItem(f, termName, vocabularyName, tid).value;
      r.Keys == f.Keys && r[tl] == f[tl].(action := Delete)
      && (IsEmpty(f[tl].parentTermName) ==> forall l :: l in f && l != tl ==> r[l] == f[l])
      && (!IsEmpty(f[tl].parentTermName) ==>
            var pl := GetTreeItem(f, f[tl].parentTermName, vocabularyName, f[tl].parentTid).value;
            (pl != tl ==> r[pl] == f[pl].RemoveChild(ChildId(f[tl])))
            && forall l :: l in f && l != tl && l != pl ==> r[l] == f[l])
  {
    var tl := GetTreeItem(f, termName, vocabularyName, tid).value;
    RemoveAbsentChild(f[tl], ChildId(f[tl]));
  }

  /** After a successful delete() the raw lookup still finds the record, and the active lookup refuses it. */
  lemma DeleteThenRefused(f: Forest, termName: string, vocabularyName: string, tid: string)
    requires DeleteRule(f, termName, vocabularyName, tid).error.None?
    ensures var r := DeleteRule(f, termName, vocabularyName, tid).forest;
      GetOriginalTreeItem(r, termName, vocabularyName, tid) == GetOriginalTreeItem(f, termName, vocabularyName, tid)
      && GetTreeItem(r, termName, vocabularyName, tid) == Err(FlaggedForDelete)
  {
    var tl := GetTreeItem(f, termName, vocabularyName, tid).value;
    var term := f[tl];
    if IsEmpty(term.parentTermName) {
      RawLookupStable(f, tl, term.(action := Delete), termName, vocabularyName, tid);
    } else {
      var pl := GetTreeItem(f, term.parentTermName, vocabularyName, term.parentTid).value;
      var f1 := f[pl := f[pl].RemoveChild(ChildId(term))];
      RawLookupStable(f, pl, f[pl].RemoveChild(ChildId(term)), termName, vocabularyName, tid);
      RawLookupStable(f1, tl, f1[tl].(action := Delete), termName, vocabularyName, tid);
    }
  }

  // ---------------------------------------------------------------- rename

  /**
   * rename() succeeds exactly when the trimmed new name is not empty, the
   * term is active, and the raw lookup of the new name (with the row's tid)
   * does not throw and finds nothing or the term's own tid under a name that
   * actually changes.
   */
  lemma RenameSucceedsIff(f: Forest, termName: string, vocabularyName: string, newName: string, tid: string)
    ensures RenameRule(f, termName, vocabularyName, newName, tid).error.None? <==>
      (!IsEmpty(Trim(newName))
       && GetTreeItem(f, termName, vocabularyName, tid).Ok?
       && (var existing := GetOriginalTreeItem(f, Trim(newName), vocabularyName, tid);
           existing.Ok?
           && (existing.value.Some? ==>
                 f[existing.value.value].tid == f[GetTreeItem(f, termName, vocabularyName, tid).value].tid
                 && termName != Trim(newName))))
  {
  }

  /** A rejected rename() changes nothing. */
  lemma RenameFailsUnchanged(f: Forest, termName: string, vocabularyName: string, newName: string, tid: string)
    ensures var r := RenameRule(f, termName, vocabularyName, newName, tid);
      r.error.Some? ==> r.forest == f
  {
  }

  /**
   * A successful rename() stores a copy of the term, named with the trimmed
   * new name and keeping its tid, at the copy's own key; the original, when
   * the copy does not land on it, stays where it was, marked rename with the
   * new name. Nothing else changes.
   */
  lemma RenameResult(f: Forest, termName: string, vocabularyName: string, newName: string, tid: string)
    requires RenameRule(f, termName, vocabularyName, newName, tid).error.None?
    ensures var r := RenameRule(f, termName, vocabularyName, newName, tid).forest;
      var tl := GetTreeItem(f, termName, vocabularyName, tid).value;
      var clone := f[tl].(termName := Trim(newName), description := "Renamed from " + termName);
      r.Keys == f.Keys + {KeyOf(clone)}
      && r[KeyOf(clone)] == clone && clone.tid == f[tl].tid
      && (KeyOf(clone) != tl ==> r[tl] == f[tl].(action := Rename, newName := Trim(newName)))
      && forall l :: l in f && l != tl && l != KeyOf(clone) ==> r[l] == f[l]
  {
  }

  /** The forest a successful rename() leaves: the original marked at its place, then the copy stored. */
  lemma RenameForest(f: Forest, termName: string, vocabularyName: string, newName: string, tid: string)
    requires RenameRule(f, termName, vocabularyName, newName, tid).error.None?
    ensures var tl := GetTreeItem(f, termName, vocabularyName, tid).value;
      var clone := f[tl].(termName := Trim(newName), description := "Renamed from " + termName);
      RenameRule(f, termName, vocabularyName, newName, tid).forest
        == f[tl := f[tl].(action := Rename, newName := Trim(newName))][KeyOf(clone) := clone]
  {
  }

  /**
   * After a successful rename() to a name under another key, the old name
   * is refused as renamed to the new one.
   */
  lemma RenameThenOldRefused(f: Forest, termName: string, vocabularyName: string, newName: string, tid: string)
    requires RenameRule(f, termName, vocabularyName, newName, tid).error.None?
    requires Trim(newName) != Trim(termName)
    ensures GetTreeItem(RenameRule(f, termName, vocabularyName, newName, tid).forest, termName, vocabularyName, tid)
      == Err(RenamedTo(Trim(newName)))
  {
    var tl := GetTreeItem(f, termName, vocabularyName, tid).value;
    var term := f[tl];
    var name := Trim(newName);
    var clone := term.(termName := name, description := "Renamed from " + termName);
    var marked := f[tl := term.(action := Rename, newName := name)];
    RenameForest(f, termName, vocabularyName, newName, tid);
    TrimIdempotent(newName);
    assert KeyOf(clone).termKey == name;
    RawLookupStable(f, tl, term.(action := Rename, newName := name), termName, vocabularyName, tid);
    LookupFrame(marked, KeyOf(clone), clone, termName, vocabularyName, tid);
  }

  /**
   * In a well-keyed forest, after a successful rename() to a name under
   * another key, the new name finds the copy, under the term's own tid.
   */
  lemma RenameThenNewFound(f: Forest, termName: string, vocabularyName: string, newName: string, tid: string)
    requires WellKeyed(f)
    requires RenameRule(f, termName, vocabularyName, newName, tid).error.None?
    requires Trim(newName) != Trim(termName)
    ensures var r := RenameRule(f, termName, vocabularyName, newName, tid).forest;
      var tl := GetTreeItem(f, termName, vocabularyName, tid).value;
      GetTreeItem(r, newName, vocabularyName, tid) == Ok(Loc(Trim(vocabularyName), Trim(newName), f[tl].tid))
  {
    var tl := GetTreeItem(f, termName, vocabularyName, tid).value;
    var term := f[tl];
    var vk, name := Trim(vocabularyName), Trim(newName);
    var clone := term.(termName := name, description := "Renamed from " + termName);
    var marked := f[tl := term.(action := Rename, newName := name)];
    RenameForest(f, termName, vocabularyName, newName, tid);
    RenameSucceedsIff(f, termName, vocabularyName, newName, tid);
    assert KeyOf(term) == tl;
    TrimIdempotent(newName);
    var cl := Loc(vk, name, term.tid);
    assert KeyOf(clone) == cl;
    TidsAfterPut(f, tl, term.(action := Rename, newName := name), vk, name);
    if IsEmpty(tid) {
      var existing := GetOriginalTreeItem(f, name, vocabularyName, tid);
      if existing.value.Some? {
        var el := existing.value.value;
        assert KeyOf(f[el]) == el;
      }
      assert Tids(marked, vk, name) <= {term.tid};
    }
    FindAfterStore(marked, cl, clone, newName, vocabularyName, tid);
  }

  // ----------------------------------------------------------- move parent

  /**
   * What the unlinking tail of moveParent() does when it succeeds: the
   * current parent loses the term's tid, the term records the new parent (if
   * any) and the action; nothing else changes.
   */
  lemma DetachAndMarkResult(f: Forest, tl: Loc, vocabularyName: string, newParent: Option<Loc>)
    requires tl in f && (newParent.Some? ==> newParent.value in f)
    requires DetachAndMark(f, tl, vocabularyName, newParent).error.None?
    ensures var r := DetachAndMark(f, tl, vocabularyName, newParent).forest;
      var term := f[tl];
      var cur := CurrentParent(f, term, vocabularyName);
      r.Keys == f.Keys
      && (!IsEmpty(term.parentTermName) ==> cur.Some?)
      && (cur.Some? && cur.value != tl ==> r[cur.value] == f[cur.value].RemoveChild(term.tid))
      && r[tl].action == MoveParent
      && (cur != Some(tl) ==>
            r[tl] == (if newParent.Some? then term.(parentTermName := f[newParent.value].termName,
                                                  parentTid := f[newParent.value].tid)
                      else term).(action := MoveParent))
      && forall l :: l in f && l != tl && Some(l) != cur ==> r[l] == f[l]
  {
  }

  /** A move refused before its first write changes nothing; only a failed unlink keeps the new parent's added child. */
  lemma MoveParentFailure(f: Forest, termName: string, vocabularyName: string, tid: string,
                          targetTermName: string, targetTid: string)
    ensures var r := MoveParentRule(f, termName, vocabularyName, tid, targetTermName, targetTid);
      r.error.Some? && r.forest != f ==>
        !IsEmpty(targetTermName)
        && GetTreeItem(f, termName, vocabularyName, tid).Ok?
        && GetTreeItem(f, targetTermName, vocabularyName, targetTid).Ok?
        && (var tl := GetTreeItem(f, termName, vocabularyName, tid).value;
            var pl := GetTreeItem(f, targetTermName, vocabularyName, targetTid).value;
            r.forest == f[pl := f[pl].AddChild(f[tl].tid)])
  {
  }

  /**
   * A successful move under a target: the target gains the term's tid, the
   * current parent loses it, and the term records the target as its parent,
   * with action move parent. Moving a term under the parent it already has
   * adds and then removes the tid, so that parent ends up without it.
   */
  lemma MoveParentResult(f: Forest, termName: string, vocabularyName: string, tid: string,
                         targetTermName: string, targetTid: string)
    requires !IsEmpty(targetTermName)
    requires MoveParentRule(f, termName, vocabularyName, tid, targetTermName, targetTid).error.None?
    ensures var r := MoveParentRule(f, termName, vocabularyName, tid, targetTermName, targetTid).forest;
      var tl := GetTreeItem(f, termName, vocabularyName, tid).value;
      var pl := GetTreeItem(f, targetTermName, vocabularyName, targetTid).value;
      var term := f[tl];
      var cur := CurrentParent(f, term, vocabularyName);
      pl != tl && r.Keys == f.Keys
      && r[pl].childTids == (if cur == Some(pl) then f[pl].childTids - {term.tid} else f[pl].childTids + {term.tid})
      && (cur.Some? && cur.value != pl && cur.value != tl ==> r[cur.value] == f[cur.value].RemoveChild(term.tid))
      && (cur != Some(tl) ==>
            r[tl] == term.(parentTermName := f[pl].termName, parentTid := f[pl].tid, action := MoveParent))
      && forall l :: l in f && l != tl && l != pl && Some(l) != cur ==> r[l] == f[l]
  {
    var tl := GetTreeItem(f, termName, vocabularyName, tid).value;
    var pl := GetTreeItem(f, targetTermName, vocabularyName, targetTid).value;
    MoveParentUnderTarget(f, termName, vocabularyName, tid, targetTermName, targetTid);
    AddChildThenDetach(f, tl, pl, vocabularyName);
  }

  /** The writes of a move under the target at `pl`, stated against the forest before the target gained the child. */
  lemma AddChildThenDetach(f: Forest, tl: Loc, pl: Loc, vocabularyName: string)
    requires tl in f && pl in f && pl != tl
    requires DetachAndMark(f[pl := f[pl].AddChild(f[tl].tid)], tl, vocabularyName, Some(pl)).error.None?
    ensures var r := DetachAndMark(f[pl := f[pl].AddChild(f[tl].tid)], tl, vocabularyName, Some(pl)).forest;
      var term := f[tl];
      var cur := CurrentParent(f, term, vocabularyName);
      r.Keys == f.Keys
      && r[pl].childTids == (if cur == Some(pl) then f[pl].childTids - {term.tid} else f[pl].childTids + {term.tid})
      && (cur.Some? && cur.value != pl && cur.value != tl ==> r[cur.value] == f[cur.value].RemoveChild(term.tid))
      && (cur != Some(tl) ==>
            r[tl] == term.(parentTermName := f[pl].termName, parentTid := f[pl].tid, action := MoveParent))
      && forall l :: l in f && l != tl && l != pl && Some(l) != cur ==> r[l] == f[l]
  {
    var term := f[tl];
    var g := f[pl := f[pl].AddChild(term.tid)];
    if !IsEmpty(term.parentTermName) {
      ActiveLookupStable(f, pl, f[pl].AddChild(term.tid), term.parentTermName, vocabularyName, term.parentTid);
    }
    assert CurrentParent(g, g[tl], vocabularyName) == CurrentParent(f, term, vocabularyName);
    DetachAndMarkResult(g, tl, vocabularyName, Some(pl));
  }

  /** The target of a successful move is another record, and the move is the unlinking tail after the target gains the child. */
  lemma MoveParentUnderTarget(f: Forest, termName: string, vocabularyName: string, tid: string,
                              targetTermName: string, targetTid: string)
    requires !IsEmpty(targetTermName)
    requires MoveParentRule(f, termName, vocabularyName, tid, targetTermName, targetTid).error.None?
    ensures GetTreeItem(f, termName, vocabularyName, tid).Ok? && GetTreeItem(f, targetTermName, vocabularyName, targetTid).Ok?
    ensures var tl := GetTreeItem(f, termName, vocabularyName, tid).value;
      var pl := GetTreeItem(f, targetTermName, vocabularyName, targetTid).value;
      pl != tl && f[pl].tid != f[tl].tid
      && MoveParentRule(f, termName, vocabularyName, tid, targetTermName, targetTid)
        == DetachAndMark(f[pl := f[pl].AddChild(f[tl].tid)], tl, vocabularyName, Some(pl))
  {
  }

  /** A successful move without a target unlinks the term from its current parent and keeps its parent fields. */
  lemma MoveParentNoTargetResult(f: Forest, termName: string, vocabularyName: string, tid: string,
                                 targetTermName: string, targetTid: string)
    requires IsEmpty(targetTermName)
    requires MoveParentRule(f, termName, vocabularyName, tid, targetTermName, targetTid).error.None?
    ensures var r := MoveParentRule(f, termName, vocabularyName, tid, targetTermName, targetTid).forest;
      var tl := GetTreeItem(f, termName, vocabularyName, tid).value;
      var cur := CurrentParent(f, f[tl], vocabularyName);
      r.Keys == f.Keys
      && (cur.Some? && cur.value != tl ==> r[cur.value] == f[cur.value].RemoveChild(f[tl].tid))
      && (cur != Some(tl) ==> r[tl] == f[tl].(action := MoveParent))
      && forall l :: l in f && l != tl && Some(l) != cur ==> r[l] == f[l]
  {
    var tl := GetTreeItem(f, termName, vocabularyName, tid).value;
    DetachAndMarkResult(f, tl, vocabularyName, None);
  }

  /** A successful move keeps the places of the forest and leaves the term marked move parent. */
  lemma MoveParentMarks(f: Forest, termName: string, vocabularyName: string, tid: string,
                        targetTermName: string, targetTid: string)
    requires MoveParentRule(f, termName, vocabularyName, tid, targetTermName, targetTid).error.None?
    ensures var r := MoveParentRule(f, termName, vocabularyName, tid, targetTermName, targetTid).forest;
      var tl := GetTreeItem(f, termName, vocabularyName, tid).value;
      r.Keys == f.Keys && r[tl].action == MoveParent
  {
    var tl := GetTreeItem(f, termName, vocabularyName, tid).value;
    if IsEmpty(targetTermName) {
      DetachAndMarkResult(f, tl, vocabularyName, None);
    } else {
      MoveParentUnderTarget(f, termName, vocabularyName, tid, targetTermName, targetTid);
      var pl := GetTreeItem(f, targetTermName, vocabularyName, targetTid).value;
      DetachAndMarkResult(f[pl := f[pl].AddChild(f[tl].tid)], tl, vocabularyName, Some(pl));
    }
  }

  /** A term moved once in a run is refused when a later row moves it again. */
  lemma MoveParentOnce(f: Forest, termName: string, vocabularyName: string, tid: string,
                       targetTermName: string, targetTid: string, nextTarget: string, nextTargetTid: string)
    requires MoveParentRule(f, termName, vocabularyName, tid, targetTermName, targetTid).error.None?
    ensures var r := MoveParentRule(f, termName, vocabularyName, tid, targetTermName, targetTid).forest;
      MoveParentRule(r, termName, vocabularyName, tid, nextTarget, nextTargetTid) == Fail(r, AlreadyMoved)
  {
    var r := MoveParentRule(f, termName, vocabularyName, tid, targetTermName, targetTid).forest;
    MoveParentMarks(f, termName, vocabularyName, tid, targetTermName, targetTid);
    RawLookupSameKeys(f, r, termName, vocabularyName, tid);
  }

  // ----------------------------------------------------------- getParents

  /** A longer walk up the parents finds every name a shorter one finds. */
  lemma {:induction false} ParentNamesMonotone(f: Forest, t: Term, n: nat, m: nat)
    requires n <= m
    ensures ParentNames(f, t, n) <= ParentNames(f, t, m)
    decreases n
  {
    if n > 0 {
      match GetTreeItem(f, t.parentTermName, t.vocabularyName, "")
      case Err(_) =>
      case Ok(pl) => ParentNamesMonotone(f, f[pl], n - 1, m - 1);
    }
  }

  /**
   * moveParent() refuses to put a term under a record whose parent chain,
   * walked at most once per record of the forest, reaches the term's name:
   * the move would close a cycle.
   */
  lemma MoveUnderDescendantRefused(f: Forest, termName: string, vocabularyName: string, tid: string,
                                   targetTermName: string, targetTid: string, n: nat)
    requires !IsEmpty(targetTermName) && n <= |f|
    requires GetTreeItem(f, termName, vocabularyName, tid).Ok?
    requires f[GetTreeItem(f, termName, vocabularyName, tid).value].action != MoveParent
    requires GetTreeItem(f, targetTermName, vocabularyName, targetTid).Ok?
    requires var tl := GetTreeItem(f, termName, vocabularyName, tid).value;
      var pl := GetTreeItem(f, targetTermName, vocabularyName, targetTid).value;
      f[pl].tid != f[tl].tid && f[tl].termName in ParentNames(f, f[pl], n)
    ensures MoveParentRule(f, termName, vocabularyName, tid, targetTermName, targetTid).error == Some(IsAncestor)
  {
    var pl := GetTreeItem(f, targetTermName, vocabularyName, targetTid).value;
    ParentNamesMonotone(f, f[pl], n, |f|);
  }

  /** In particular, a term cannot be moved under one of its own children. */
  lemma MoveUnderChildRefused(f: Forest, termName: string, vocabularyName: string, tid: string,
                              targetTermName: string, targetTid: string)
    requires !IsEmpty(targetTermName)
    requires GetTreeItem(f, termName, vocabularyName, tid).Ok?
    requires f[GetTreeItem(f, termName, vocabularyName, tid).value].action != MoveParent
    requires GetTreeItem(f, targetTermName, vocabularyName, targetTid).Ok?
    requires var tl := GetTreeItem(f, termName, vocabularyName, tid).value;
      var pl := GetTreeItem(f, targetTermName, vocabularyName, targetTid).value;
      f[pl].tid != f[tl].tid && f[pl].parentTermName == f[tl].termName
      && GetTreeItem(f, f[pl].parentTermName, f[pl].vocabularyName, "").Ok?
    ensures MoveParentRule(f, termName, vocabularyName, tid, targetTermName, targetTid).error == Some(IsAncestor)
  {
    var tl := GetTreeItem(f, termName, vocabularyName, tid).value;
    var pl := GetTreeItem(f, targetTermName, vocabularyName, targetTid).value;
    assert f[tl].termName in ParentNames(f, f[pl], 1);
    MoveUnderDescendantRefused(f, termName, vocabularyName, tid, targetTermName, targetTid, 1);
  }

  // ----------------------------------------------------------------- merge

  /** Every check of merge() passes, so the row goes on to its writes. */
  predicate MergeChecksPass(f: Forest, env: Env, termName: string, vocabularyName: string, targetTermName: string,
                            targetVocabularyName: string, targetField: string, tid: string, targetTid: string)
  {
    !(termName == targetTermName && vocabularyName == targetVocabularyName && tid == targetTid)
    && GetTreeItem(f, targetTermName, targetVocabularyName, targetTid).Ok?
    && !IsEmpty(f[GetTreeItem(f, targetTermName, targetVocabularyName, targetTid).value].tid)
    && GetTreeItem(f, termName, vocabularyName, tid).Ok?
    && !f[GetTreeItem(f, termName, vocabularyName, tid).value].locked
    && !f[GetTreeItem(f, termName, vocabularyName, tid).value].IsParent()
    && (targetVocabularyName != vocabularyName ==> CrossVocabularyError(env, targetVocabularyName, targetField).None?)
  }

  /** merge() stops at a failing check without changing anything. */
  lemma MergeRefused(f: Forest, env: Env, termName: string, vocabularyName: string, targetTermName: string,
                     targetVocabularyName: string, targetField: string, tid: string, targetTid: string)
    requires !MergeChecksPass(f, env, termName, vocabularyName, targetTermName, targetVocabularyName, targetField, tid, targetTid)
    ensures var r := MergeRule(f, env, termName, vocabularyName, targetTermName, targetVocabularyName, targetField, tid, targetTid);
      r.error.Some? && r.forest == f
  {
    if termName == targetTermName && vocabularyName == targetVocabularyName && tid == targetTid {
    } else if GetTreeItem(f, targetTermName, targetVocabularyName, targetTid).Err? {
    } else {
      var gl := GetTreeItem(f, targetTermName, targetVocabularyName, targetTid).value;
      if IsEmpty(f[gl].tid) {
      } else if GetTreeItem(f, termName, vocabularyName, tid).Err? {
      } else {
        var sl := GetTreeItem(f, termName, vocabularyName, tid).value;
        assert f[sl].locked || f[sl].IsParent()
          || (targetVocabularyName != vocabularyName && CrossVocabularyError(env, targetVocabularyName, targetField).Some?);
      }
    }
  }

  /** Once every check passes, merge() makes its writes on the source and target it found. */
  lemma MergeProceeds(f: Forest, env: Env, termName: string, vocabularyName: string, targetTermName: string,
                      targetVocabularyName: string, targetField: string, tid: string, targetTid: string)
    requires MergeChecksPass(f, env, termName, vocabularyName, targetTermName, targetVocabularyName, targetField, tid, targetTid)
    ensures MergeRule(f, env, termName, vocabularyName, targetTermName, targetVocabularyName, targetField, tid, targetTid)
      == MergeWrites(f, GetTreeItem(f, termName, vocabularyName, tid).value,
                     GetTreeItem(f, targetTermName, targetVocabularyName, targetTid).value, vocabularyName)
  {
  }

  /** Moving node counts changes nothing the active lookup reads. */
  lemma CountsMovedLookups(f: Forest, sl: Loc, gl: Loc, termName: string, vocabularyName: string, tid: string)
    requires sl in f && gl in f
    ensures GetTreeItem(CountsMoved(f, sl, gl), termName, vocabularyName, tid) == GetTreeItem(f, termName, vocabularyName, tid)
  {
    var g := CountsMoved(f, sl, gl);
    assert forall l :: l in f ==> SameLookupView(f[l], g[l]);
    SameViewLookups(f, g, termName, vocabularyName, tid);
  }

  /** Moving node counts leaves the source's current parent as it was. */
  lemma CountsMovedParent(f: Forest, sl: Loc, gl: Loc, vocabularyName: string)
    requires sl in f && gl in f
    ensures var g := CountsMoved(f, sl, gl);
      g[sl].parentTermName == f[sl].parentTermName && ChildId(g[sl]) == ChildId(f[sl])
      && CurrentParent(g, g[sl], vocabularyName) == CurrentParent(f, f[sl], vocabularyName)
  {
    if !IsEmpty(f[sl].parentTermName) {
      CountsMovedLookups(f, sl, gl, f[sl].parentTermName, vocabularyName, f[sl].parentTid);
    }
  }

  /**
   * The writes of merge() fail only when the source names a parent the
   * active lookup refuses; the node counts have moved by then and stay moved.
   */
  lemma MergeWritesOutcome(f: Forest, sl: Loc, gl: Loc, vocabularyName: string)
    requires sl in f && gl in f
    ensures var r := MergeWrites(f, sl, gl, vocabularyName);
      (r.error.None? <==> CurrentParent(f, f[sl], vocabularyName).Some? || IsEmpty(f[sl].parentTermName))
      && (r.error.Some? ==> r.forest == CountsMoved(f, sl, gl))
  {
    CountsMovedParent(f, sl, gl, vocabularyName);
  }

  /**
   * Merging one record into another moves the source's node count onto the
   * target: the two counts keep their sum, even when the unlink fails, and
   * no other record's count changes.
   */
  lemma MergeWritesKeepNodes(f: Forest, sl: Loc, gl: Loc, vocabularyName: string)
    requires sl in f && gl in f && sl != gl
    ensures var r := MergeWrites(f, sl, gl, vocabularyName).forest;
      r.Keys == f.Keys
      && r[gl].nodeCount == f[gl].nodeCount + f[sl].nodeCount && r[sl].nodeCount == 0
      && forall l :: l in f && l != sl && l != gl ==> r[l].nodeCount == f[l].nodeCount
  {
    var f2 := CountsMoved(f, sl, gl);
    var u := Unlink(f2, sl, vocabularyName, ChildId(f2[sl]));
    if u.Ok? {
      var f3 := u.value;
      assert f3.Keys == f.Keys && forall l :: l in f3 ==> f3[l].nodeCount == f2[l].nodeCount;
    }
  }

  /**
   * A successful merge of one record into another: the source keeps its
   * place, marked merge, with no nodes and the target's name, vocabulary,
   * vid and tid; the target holds both node counts and is locked; the
   * source's parent loses the source; nothing else changes.
   */
  lemma MergeWritesResult(f: Forest, sl: Loc, gl: Loc, vocabularyName: string)
    requires sl in f && gl in f && sl != gl
    requires CurrentParent(f, f[sl], vocabularyName) != Some(sl)
    requires MergeWrites(f, sl, gl, vocabularyName).error.None?
    ensures var r := MergeWrites(f, sl, gl, vocabularyName).forest;
      var cur := CurrentParent(f, f[sl], vocabularyName);
      var target := if cur == Some(gl) then f[gl].RemoveChild(ChildId(f[sl])) else f[gl];
      r.Keys == f.Keys
      && r[sl] == f[sl].(nodeCount := 0, action := Merge, targetTermName := f[gl].termName,
                         targetVocabularyName := f[gl].vocabularyName, targetVid := f[gl].vid, targetTid := f[gl].tid)
      && r[gl] == target.(nodeCount := f[gl].nodeCount + f[sl].nodeCount, locked := true)
      && (cur.Some? && cur.value != gl ==> r[cur.value] == f[cur.value].RemoveChild(ChildId(f[sl])))
      && forall l :: l in f && l != sl && l != gl && Some(l) != cur ==> r[l] == f[l]
  {
    var f2 := CountsMoved(f, sl, gl);
    CountsMovedParent(f, sl, gl, vocabularyName);
    var cur := CurrentParent(f, f[sl], vocabularyName);
    var f3 := Unlink(f2, sl, vocabularyName, ChildId(f2[sl])).value;
    assert f3 == (if cur.Some? then f2[cur.value := f2[cur.value].RemoveChild(ChildId(f[sl]))] else f2);
    assert f3[sl] == f2[sl] && f3[gl].termName == f[gl].termName && f3[gl].vocabularyName == f[gl].vocabularyName
      && f3[gl].vid == f[gl].vid && f3[gl].tid == f[gl].tid;
  }

  /**
   * When source and target are the same record (names that differ only in
   * surrounding whitespace pass the self-merge guard), the writes zero its
   * node count, mark it merged into itself and lock it: its nodes are lost.
   */
  lemma MergeWritesAlias(f: Forest, sl: Loc, vocabularyName: string)
    requires sl in f
    requires MergeWrites(f, sl, sl, vocabularyName).error.None?
    ensures var r := MergeWrites(f, sl, sl, vocabularyName).forest;
      r.Keys == f.Keys && r[sl].nodeCount == 0 && r[sl].action == Merge && r[sl].locked
      && r[sl].targetTid == f[sl].tid && r[sl].targetTermName == f[sl].termName
  {
  }

  /** merge() succeeds exactly when every check passes and the source's parent, if named, is active. */
  lemma MergeSucceedsIff(f: Forest, env: Env, termName: string, vocabularyName: string, targetTermName: string,
                         targetVocabularyName: string, targetField: string, tid: string, targetTid: string)
    ensures MergeRule(f, env, termName, vocabularyName, targetTermName, targetVocabularyName, targetField, tid, targetTid).error.None?
      <==> MergeChecksPass(f, env, termName, vocabularyName, targetTermName, targetVocabularyName, targetField, tid, targetTid)
           && (var sl := GetTreeItem(f, termName, vocabularyName, tid).value;
               IsEmpty(f[sl].parentTermName) || CurrentParent(f, f[sl], vocabularyName).Some?)
  {
    if MergeChecksPass(f, env, termName, vocabularyName, targetTermName, targetVocabularyName, targetField, tid, targetTid) {
      MergeProceeds(f, env, termName, vocabularyName, targetTermName, targetVocabularyName, targetField, tid, targetTid);
      MergeWritesOutcome(f, GetTreeItem(f, termName, vocabularyName, tid).value,
                         GetTreeItem(f, targetTermName, targetVocabularyName, targetTid).value, vocabularyName);
    } else {
      MergeRefused(f, env, termName, vocabularyName, targetTermName, targetVocabularyName, targetField, tid, targetTid);
    }
  }

  /** A refused merge() changes nothing, except that a failed unlink leaves the node counts moved. */
  lemma MergeFailure(f: Forest, env: Env, termName: string, vocabularyName: string, targetTermName: string,
                     targetVocabularyName: string, targetField: string, tid: string, targetTid: string)
    ensures var r := MergeRule(f, env, termName, vocabularyName, targetTermName, targetVocabularyName, targetField, tid, targetTid);
      r.error.Some? && r.forest != f ==>
        MergeChecksPass(f, env, termName, vocabularyName, targetTermName, targetVocabularyName, targetField, tid, targetTid)
        && r.forest == CountsMoved(f, GetTreeItem(f, termName, vocabularyName, tid).value,
                                   GetTreeItem(f, targetTermName, targetVocabularyName, targetTid).value)
  {
    if MergeChecksPass(f, env, termName, vocabularyName, targetTermName, targetVocabularyName, targetField, tid, targetTid) {
      MergeProceeds(f, env, termName, vocabularyName, targetTermName, targetVocabularyName, targetField, tid, targetTid);
      MergeWritesOutcome(f, GetTreeItem(f, termName, vocabularyName, tid).value,
                         GetTreeItem(f, targetTermName, targetVocabularyName, targetTid).value, vocabularyName);
    } else {
      MergeRefused(f, env, termName, vocabularyName, targetTermName, targetVocabularyName, targetField, tid, targetTid);
    }
  }

  /** What later rows see of a merge of one record into another: the source marked merged, the target locked. */
  lemma MergeWritesMarks(f: Forest, sl: Loc, gl: Loc, vocabularyName: string)
    requires sl in f && gl in f && sl != gl
    requires MergeWrites(f, sl, gl, vocabularyName).error.None?
    ensures var r := MergeWrites(f, sl, gl, vocabularyName).forest;
      r.Keys == f.Keys && r[sl].action == Merge
      && r[sl].targetVocabularyName == f[gl].vocabularyName && r[sl].targetTermName == f[gl].termName
      && r[gl].locked && r[gl].action == f[gl].action
  {
    var f2 := CountsMoved(f, sl, gl);
    CountsMovedParent(f, sl, gl, vocabularyName);
    var f3 := Unlink(f2, sl, vocabularyName, ChildId(f2[sl])).value;
    assert f3[gl].termName == f[gl].termName && f3[gl].vocabularyName == f[gl].vocabularyName
      && f3[gl].action == f[gl].action;
  }

  /**
   * After a successful merge of one record into another, the source is
   * refused as merged into the target, and the locked target can be neither
   * deleted nor merged away by a later row.
   */
  lemma MergeThenLocked(f: Forest, env: Env, termName: string, vocabularyName: string, targetTermName: string,
                        targetVocabularyName: string, targetField: string, tid: string, targetTid: string,
                        env2: Env, otherName: string, otherVocabularyName: string, otherField: string, otherTid: string)
    requires MergeRule(f, env, termName, vocabularyName, targetTermName, targetVocabularyName, targetField, tid, targetTid).error.None?
    requires GetTreeItem(f, termName, vocabularyName, tid) != GetTreeItem(f, targetTermName, targetVocabularyName, targetTid)
    ensures var r := MergeRule(f, env, termName, vocabularyName, targetTermName, targetVocabularyName, targetField, tid, targetTid).forest;
      var gl := GetTreeItem(f, targetTermName, targetVocabularyName, targetTid).value;
      GetTreeItem(r, termName, vocabularyName, tid) == Err(MergedInto(f[gl].vocabularyName, f[gl].termName))
      && DeleteRule(r, targetTermName, targetVocabularyName, targetTid) == Fail(r, Locked)
      && MergeRule(r, env2, targetTermName, targetVocabularyName, otherName, otherVocabularyName, otherField, targetTid, otherTid).error.Some?
  {
    MergeSucceedsIff(f, env, termName, vocabularyName, targetTermName, targetVocabularyName, targetField, tid, targetTid);
    MergeProceeds(f, env, termName, vocabularyName, targetTermName, targetVocabularyName, targetField, tid, targetTid);
    var sl := GetTreeItem(f, termName, vocabularyName, tid).value;
    var gl := GetTreeItem(f, targetTermName, targetVocabularyName, targetTid).value;
    var r := MergeWrites(f, sl, gl, vocabularyName).forest;
    MergeWritesMarks(f, sl, gl, vocabularyName);
    RawLookupSameKeys(f, r, termName, vocabularyName, tid);
    RawLookupSameKeys(f, r, targetTermName, targetVocabularyName, targetTid);
    assert GetTreeItem(r, targetTermName, targetVocabularyName, targetTid) == Ok(gl);
  }

  // ------------------------------------------------------ target fields

  /** With one field name (no comma), a cross-vocabulary merge is allowed exactly when that trimmed field accepts the vocabulary. */
  lemma CrossVocabularyOneField(env: Env, targetVocabularyName: string, targetField: string)
    requires !IsEmpty(targetField) && ',' !in targetField
    ensures CrossVocabularyError(env, targetVocabularyName, targetField).None?
      <==> env.vidOf(targetVocabularyName) in env.fieldAllowedVids(Trim(targetField))
  {
    ExplodeNoSep(targetField, ',');
  }

  /**
   * A target field list written as names joined by commas is checked name
   * by name: the error is the first name that does not accept the
   * vocabulary, quoting the fields that do.
   */
  lemma CrossVocabularyFieldList(env: Env, targetVocabularyName: string, fields: seq<string>)
    requires |fields| >= 1 && !IsEmpty(Implode(fields, ','))
    requires forall i :: 0 <= i < |fields| ==> ',' !in fields[i] && Trim(fields[i]) == fields[i]
    ensures CrossVocabularyError(env, targetVocabularyName, Implode(fields, ','))
      == FirstDisallowedField(env, fields, env.vidOf(targetVocabularyName))
  {
    ExplodeImplode(fields, ',');
    assert TrimAll(fields) == fields;
  }
}
