/**
 * TermManagerDryRunItem: one term of the in-memory forest, real (seeded from
 * the snapshot) or pending (created by a row). Besides the exported columns it
 * carries the set of child ids and `term_child_count`, the size of that set.
 *
 * Properties the source never sets on a record read as PHP null; the model
 * gives them the empty string, 0 or false, which PHP treats the same way
 * wherever the dry run reads them.
 */
module Terms {
  import opened Php
  import opened Item

  datatype Term = Term(
    vocabularyName: string,
    termName: string,
    tid: string,
    vid: string,
    parentTermName: string,
    parentTid: string,
    nodeCount: int,
    childTids: set<string>,
    termChildCount: int,
    action: Action,
    newName: string,
    locked: bool,
    targetTermName: string,
    targetVocabularyName: string,
    targetVid: string,
    targetTid: string,
    description: string)
  {
    /** The record has kept `term_child_count` equal to the number of its children. */
    predicate CountsChildren() {
      termChildCount == |childTids|
    }

    /** isParent(): the child set is not empty. */
    predicate IsParent() {
      childTids != {}
    }

    /** Everything but the child set and its count is the same in both records. */
    predicate SameExceptChildren(other: Term) {
      this.(childTids := other.childTids, termChildCount := other.termChildCount) == other
    }

    /** addChild(): the id joins the child set (a set, so adding twice is adding once) and the count follows. */
    function AddChild(id: string): (t: Term)
      ensures t.childTids == childTids + {id}
      ensures t.CountsChildren() && t.IsParent()
      ensures SameExceptChildren(t)
    {
      this.(childTids := childTids + {id}, termChildCount := |childTids + {id}|)
    }

    /** removeChild(): only that id leaves the child set (absent ids change nothing) and the count follows. */
    function RemoveChild(id: string): (t: Term)
      ensures t.childTids == childTids - {id}
      ensures id !in t.childTids && t.CountsChildren()
      ensures SameExceptChildren(t)
    {
      this.(childTids := childTids - {id}, termChildCount := |childTids - {id}|)
    }
  }

  /** A record as the snapshot yields it: no pending action, not locked, the child count taken from its children. */
  function SnapshotTerm(vocabularyName: string, termName: string, tid: string, vid: string,
                        parentTermName: string, parentTid: string, nodeCount: int,
                        childTids: set<string>): (t: Term)
    ensures t.CountsChildren() && t.action == NoAction && !t.locked
  {
    Term(vocabularyName, termName, tid, vid, parentTermName, parentTid, nodeCount,
         childTids, |childTids|, NoAction, "", false, "", "", "", "", "")
  }

  /** Adding the same child twice leaves the record as adding it once. */
  lemma AddChildIdempotent(t: Term, id: string)
    ensures t.AddChild(id).AddChild(id) == t.AddChild(id)
  {
    assert t.childTids + {id} + {id} == t.childTids + {id};
  }

  /** Removing an id that is not a child changes nothing on a record that counts its children. */
  lemma RemoveAbsentChild(t: Term, id: string)
    requires t.CountsChildren() && id !in t.childTids
    ensures t.RemoveChild(id) == t
  {
    assert t.childTids - {id} == t.childTids;
  }

  /** Adding a new child and removing it again restores the record. */
  lemma AddThenRemoveChild(t: Term, id: string)
    requires t.CountsChildren() && id !in t.childTids
    ensures t.AddChild(id).RemoveChild(id) == t
  {
    assert t.childTids + {id} - {id} == t.childTids;
  }

  /** On a record that counts its children, isParent() is exactly a positive `term_child_count`. */
  lemma IsParentByCount(t: Term)
    requires t.CountsChildren()
    ensures t.IsParent() <==> t.termChildCount > 0
  {
    if t.childTids != {} {
      var x :| x in t.childTids;
      assert |t.childTids| >= |{x}|;
    }
  }

  /** Adding a child that is not yet there raises the count by exactly one. */
  lemma AddChildCount(t: Term, id: string)
    requires t.CountsChildren()
    ensures t.AddChild(id).termChildCount == t.termChildCount + (if id in t.childTids then 0 else 1)
  {
    if id in t.childTids {
      assert t.childTids + {id} == t.childTids;
    }
  }
}
