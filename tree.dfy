/**
 * TermManagerTree: the in-memory forest the dry run replays rows against.
 *
 * `termTree[vocabulary][term name][tid]` holds one record. The model keys the
 * same records by the triple (`Loc`); the source never empties a
 * (vocabulary, name) bucket, so the two forms hold the same information. The
 * source keeps PHP objects there and the rules change them in place; the
 * model keeps record values and names a record by its place, so that "change
 * the object the lookup returned" is "write the record back at the place the
 * lookup found it", and a later read of that object is a read at that place.
 */
module Tree {
  import opened Php
  import opened Errors
  import opened Item
  import opened Terms

  /** Where a record sits: the trimmed vocabulary name, the trimmed term name and the tid it was added under. */
  datatype Loc = Loc(vocabKey: string, termKey: string, tidKey: string)

  type Forest = map<Loc, Term>

  /**
   * formatKey(): a name's key is the name with the trim characters at its
   * two ends removed, so it neither starts nor ends with one.
   */
  function FormatKey(s: string): (k: string)
    ensures |k| <= |s| && (k == [] || (!IsTrimChar(k[0]) && !IsTrimChar(k[|k| - 1])))
  {
    Trim(s)
  }

  /**
   * A key is a slice of the name with only trim characters cut off around it,
   * and a key is its own key.
   */
  lemma FormatKeySlice(s: string)
    ensures FormatKey(FormatKey(s)) == FormatKey(s)
    ensures exists i, j ::
              && 0 <= i <= j <= |s| && FormatKey(s) == s[i..j]
              && (forall x :: 0 <= x < i ==> IsTrimChar(s[x]))
              && (forall x :: j <= x < |s| ==> IsTrimChar(s[x]))
  {
    TrimIdempotent(s);
    TrimSlice(s);
  }

  /** The tids recorded under one (vocabulary, name) key: the keys of `termTree[vk][tk]`. */
  function Tids(f: Forest, vk: string, tk: string): (tids: set<string>)
    ensures forall tid :: tid in tids <==> Loc(vk, tk, tid) in f
  {
    set l | l in f.Keys && l.vocabKey == vk && l.termKey == tk :: l.tidKey
  }

  /** Storing a record adds its tid to its own key's tids and to no other key's. */
  lemma TidsAfterPut(f: Forest, l: Loc, t: Term, vk: string, tk: string)
    ensures Tids(f[l := t], vk, tk) ==
      Tids(f, vk, tk) + (if (vk, tk) == (l.vocabKey, l.termKey) then {l.tidKey} else {})
  {
  }

  /** The place addTreeItem() stores a record at: its trimmed vocabulary and term names and its tid. */
  function KeyOf(t: Term): (l: Loc)
  {
    Loc(FormatKey(t.vocabularyName), FormatKey(t.termName), t.tid)
  }

  /** addTreeItem(): stores the record at [vocabulary][name][tid], replacing only a record with that same tid there. */
  function WithItem(f: Forest, item: Term): (g: Forest)
    ensures KeyOf(item) in g && g[KeyOf(item)] == item
  {
    f[KeyOf(item) := item]
  }

  /** Storing a record leaves every other place as it was. */
  lemma WithItemOther(f: Forest, item: Term, l: Loc)
    requires l != KeyOf(item)
    ensures (l in WithItem(f, item)) == (l in f)
    ensures l in f ==> WithItem(f, item)[l] == f[l]
  {
  }

  /** The one element of a one-element set (PHP's reset() on a one-record bucket). */
  function OnlyTid(tids: set<string>): (tid: string)
    requires |tids| == 1
    ensures tids == {tid}
  {
    SingletonSet(tids);
    var tid :| tid in tids;
    tid
  }

  lemma SingletonSet(s: set<string>)
    requires |s| == 1
    ensures forall x, y :: x in s && y in s ==> x == y
  {
    forall x, y | x in s && y in s ensures x == y {
      if x != y {
        assert {x, y} <= s;
        assert |{x, y}| == 2;
        SubsetSize({x, y}, s);
      }
    }
  }

  lemma SubsetSize<T>(a: set<T>, b: set<T>)
    requires a <= b
    ensures |a| <= |b|
  {
    assert b == a + (b - a);
  }

  /**
   * getOriginalTreeItem(): the record at the trimmed (vocabulary, name) key,
   * whatever action it carries. A tid that is not empty must be one of the
   * key's tids; without one the key must hold at most one record.
   */
  function GetOriginalTreeItem(f: Forest, termName: string, vocabularyName: string, tid: string): (r: Result<Option<Loc>>)
    ensures r.Ok? && r.value.Some? ==>
      r.value.value in f && r.value.value.vocabKey == Trim(vocabularyName) && r.value.value.termKey == Trim(termName)
    ensures Tids(f, Trim(vocabularyName), Trim(termName)) == {} ==> r == Ok(None)
    ensures Tids(f, Trim(vocabularyName), Trim(termName)) != {} && !IsEmpty(tid) ==>
      (r.Err? <==> tid !in Tids(f, Trim(vocabularyName), Trim(termName)))
      && (r.Err? ==> r.error == InvalidTid)
      && (r.Ok? ==> r.value == Some(Loc(Trim(vocabularyName), Trim(termName), tid)))
    ensures IsEmpty(tid) ==>
      (r.Err? <==> |Tids(f, Trim(vocabularyName), Trim(termName))| > 1)
      && (r.Err? ==> r.error == Duplicated)
      && (|Tids(f, Trim(vocabularyName), Trim(termName))| == 1 ==> r.Ok? && r.value.Some?)
  {
    var vk, tk := FormatKey(vocabularyName), FormatKey(termName);
    var tids := Tids(f, vk, tk);
    if tids == {} then Ok(None)
    else if !IsEmpty(tid) then
      if tid in tids then Ok(Some(Loc(vk, tk, tid))) else Err(InvalidTid)
    else if |tids| > 1 then Err(Duplicated)
    else Ok(Some(Loc(vk, tk, OnlyTid(tids))))
  }

  /** The actions that turn a record into a tombstone the active lookup refuses. */
  predicate IsTombstone(a: Action) {
    a == Delete || a == Merge || a == Rename
  }

  /**
   * getTreeItem(): the raw lookup, refused for tombstones (deleted, merged or
   * renamed records) and for a key with no record.
   */
  function GetTreeItem(f: Forest, termName: string, vocabularyName: string, tid: string): (r: Result<Loc>)
    ensures r.Ok? <==>
      (var raw := GetOriginalTreeItem(f, termName, vocabularyName, tid);
       raw.Ok? && raw.value.Some? && !IsTombstone(f[raw.value.value].action))
    ensures r.Ok? ==> GetOriginalTreeItem(f, termName, vocabularyName, tid) == Ok(Some(r.value))
    ensures GetOriginalTreeItem(f, termName, vocabularyName, tid) == Ok(None) ==> r == Err(NotFound)
    ensures GetOriginalTreeItem(f, termName, vocabularyName, tid).Err? ==>
      r == Err(GetOriginalTreeItem(f, termName, vocabularyName, tid).error)
    ensures (var raw := GetOriginalTreeItem(f, termName, vocabularyName, tid);
             raw.Ok? && raw.value.Some? ==>
               var t := f[raw.value.value];
               (t.action == Delete ==> r == Err(FlaggedForDelete))
               && (t.action == Merge ==> r == Err(MergedInto(t.targetVocabularyName, t.targetTermName)))
               && (t.action == Rename ==> r == Err(RenamedTo(t.newName))))
  {
    match GetOriginalTreeItem(f, termName, vocabularyName, tid)
    case Err(e) => Err(e)
    case Ok(None) => Err(NotFound)
    case Ok(Some(l)) =>
      var t := f[l];
      if t.action == Delete then Err(FlaggedForDelete)
      else if t.action == Merge then Err(MergedInto(t.targetVocabularyName, t.targetTermName))
      else if t.action == Rename then Err(RenamedTo(t.newName))
      else Ok(l)
  }

  /** A write at a place outside the looked-up (vocabulary, name) key leaves both lookups as they were. */
  lemma LookupFrame(f: Forest, l: Loc, t: Term, termName: string, vocabularyName: string, tid: string)
    requires (l.vocabKey, l.termKey) != (Trim(vocabularyName), Trim(termName))
    ensures GetOriginalTreeItem(f[l := t], termName, vocabularyName, tid) == GetOriginalTreeItem(f, termName, vocabularyName, tid)
    ensures GetTreeItem(f[l := t], termName, vocabularyName, tid) == GetTreeItem(f, termName, vocabularyName, tid)
  {
    TidsAfterPut(f, l, t, Trim(vocabularyName), Trim(termName));
  }

  /** Rewriting a record the forest already holds leaves every raw lookup as it was. */
  lemma RawLookupStable(f: Forest, l: Loc, t: Term, termName: string, vocabularyName: string, tid: string)
    requires l in f
    ensures GetOriginalTreeItem(f[l := t], termName, vocabularyName, tid) == GetOriginalTreeItem(f, termName, vocabularyName, tid)
  {
    TidsAfterPut(f, l, t, Trim(vocabularyName), Trim(termName));
    assert Tids(f[l := t], Trim(vocabularyName), Trim(termName)) == Tids(f, Trim(vocabularyName), Trim(termName));
  }

  /**
   * Storing an active record at a (vocabulary, name) key that holds no other
   * tid makes the lookup by that name find it; with a tid, the lookup by that
   * tid finds it whatever else the key holds.
   */
  lemma FindAfterStore(f: Forest, l: Loc, t: Term, termName: string, vocabularyName: string, tid: string)
    requires l.vocabKey == Trim(vocabularyName) && l.termKey == Trim(termName)
    requires IsEmpty(tid) ==> Tids(f, l.vocabKey, l.termKey) <= {l.tidKey}
    requires !IsEmpty(tid) ==> l.tidKey == tid
    requires !IsTombstone(t.action)
    ensures GetTreeItem(f[l := t], termName, vocabularyName, tid) == Ok(l)
  {
    TidsAfterPut(f, l, t, l.vocabKey, l.termKey);
    if IsEmpty(tid) {
      assert Tids(f[l := t], l.vocabKey, l.termKey) == {l.tidKey};
    }
  }

  /** Two forests with the same places give the same raw lookups. */
  lemma RawLookupSameKeys(f: Forest, g: Forest, termName: string, vocabularyName: string, tid: string)
    requires f.Keys == g.Keys
    ensures GetOriginalTreeItem(g, termName, vocabularyName, tid) == GetOriginalTreeItem(f, termName, vocabularyName, tid)
  {
    assert Tids(g, Trim(vocabularyName), Trim(termName)) == Tids(f, Trim(vocabularyName), Trim(termName));
  }

  /** What the active lookup reads of a record: its action and the names its refusal messages quote. */
  predicate SameLookupView(a: Term, b: Term) {
    a.action == b.action && a.targetVocabularyName == b.targetVocabularyName
    && a.targetTermName == b.targetTermName && a.newName == b.newName
  }

  /**
   * Rewriting a record the forest already holds, without changing what the
   * active lookup reads of it, leaves every active lookup as it was.
   */
  lemma ActiveLookupStable(f: Forest, l: Loc, t: Term, termName: string, vocabularyName: string, tid: string)
    requires l in f && SameLookupView(f[l], t)
    ensures GetTreeItem(f[l := t], termName, vocabularyName, tid) == GetTreeItem(f, termName, vocabularyName, tid)
  {
    RawLookupStable(f, l, t, termName, vocabularyName, tid);
  }

  /** Two forests with the same places and the same lookup view of every record give the same active lookups. */
  lemma SameViewLookups(f: Forest, g: Forest, termName: string, vocabularyName: string, tid: string)
    requires f.Keys == g.Keys && forall l :: l in f ==> SameLookupView(f[l], g[l])
    ensures GetTreeItem(g, termName, vocabularyName, tid) == GetTreeItem(f, termName, vocabularyName, tid)
  {
    RawLookupSameKeys(f, g, termName, vocabularyName, tid);
  }

  /** Every record sits at the place its own vocabulary, name and tid give. */
  ghost predicate WellKeyed(f: Forest) {
    forall l :: l in f ==> KeyOf(f[l]) == l
  }

  /** Every record keeps `term_child_count` equal to the size of its child set. */
  ghost predicate ChildCountsKept(f: Forest) {
    forall l :: l in f ==> f[l].CountsChildren()
  }

  /** A write keeps both forest invariants when the record written keeps them at its place. */
  lemma PutKeepsInvariants(f: Forest, l: Loc, t: Term)
    requires WellKeyed(f) && ChildCountsKept(f)
    requires KeyOf(t) == l && t.CountsChildren()
    ensures WellKeyed(f[l := t]) && ChildCountsKept(f[l := t])
  {
  }

  /** The forest the snapshot builds, one addTreeItem() per record in order. */
  function BuildForest(snapshot: seq<Term>): Forest
  {
    if snapshot == [] then map[]
    else WithItem(BuildForest(snapshot[..|snapshot| - 1]), snapshot[|snapshot| - 1])
  }

  lemma BuildForestStep(snapshot: seq<Term>, i: nat)
    requires i < |snapshot|
    ensures BuildForest(snapshot[..i + 1]) == WithItem(BuildForest(snapshot[..i]), snapshot[i])
  {
    assert snapshot[..i + 1][..i] == snapshot[..i];
  }

  /** After seeding, every record sits at its own key and comes from the snapshot. */
  lemma {:induction false} BuildForestWellKeyed(snapshot: seq<Term>)
    ensures WellKeyed(BuildForest(snapshot))
    ensures forall l :: l in BuildForest(snapshot) ==> BuildForest(snapshot)[l] in snapshot
  {
    if snapshot != [] {
      var n := |snapshot| - 1;
      var init := snapshot[..n];
      BuildForestWellKeyed(init);
      var f := BuildForest(init);
      forall l | l in f ensures f[l] in snapshot {
        assert f[l] in init;
      }
    }
  }

  /** No record after position `i` of the snapshot has the key of the record at `i`. */
  predicate LastWithKey(snapshot: seq<Term>, i: nat)
    requires i < |snapshot|
  {
    forall j :: i < j < |snapshot| ==> KeyOf(snapshot[j]) != KeyOf(snapshot[i])
  }

  /**
   * After seeding, a record of the snapshot is found at its own key unless a
   * later record has the same vocabulary, name and tid (which replaces it).
   */
  lemma {:induction false} BuildForestFinds(snapshot: seq<Term>, i: nat)
    requires i < |snapshot| && LastWithKey(snapshot, i)
    ensures KeyOf(snapshot[i]) in BuildForest(snapshot)
    ensures BuildForest(snapshot)[KeyOf(snapshot[i])] == snapshot[i]
  {
    var n := |snapshot| - 1;
    var init := snapshot[..n];
    var f := BuildForest(init);
    assert BuildForest(snapshot) == WithItem(f, snapshot[n]);
    if i < n {
      assert init[i] == snapshot[i];
      assert KeyOf(snapshot[n]) != KeyOf(snapshot[i]);
      assert LastWithKey(init, i) by {
        forall j | i < j < |init| ensures KeyOf(init[j]) != KeyOf(init[i]) {
          assert init[j] == snapshot[j];
        }
      }
      BuildForestFinds(init, i);
      WithItemOther(f, snapshot[n], KeyOf(snapshot[i]));
    }
  }

  /** The characters the machine-name replacement keeps: ASCII letters, digits and '_'. */
  predicate IsWordChar(c: char) {
    ('a' <= c <= 'z') || ('A' <= c <= 'Z') || ('0' <= c <= '9') || c == '_'
  }

  predicate IsMachineChar(c: char) {
    ('a' <= c <= 'z') || ('0' <= c <= '9') || c == '_'
  }

  /** The string after its leading run of non-word characters. */
  function DropNonWord(s: string): (r: string)
    ensures |r| <= |s| && r == s[|s| - |r|..]
    ensures r == [] || IsWordChar(r[0])
  {
    if s != [] && !IsWordChar(s[0]) then
      var r := DropNonWord(s[1..]);
      assert s[1..][|s| - 1 - |r|..] == s[|s| - |r|..];
      r
    else s
  }

  /** The machine-name replacement: each maximal run of other characters becomes one '_'. */
  function ReplaceNonWordRuns(s: string): (r: string)
    ensures |r| <= |s|
    ensures forall i :: 0 <= i < |r| ==> IsWordChar(r[i])
    decreases |s|
  {
    if s == [] then []
    else if IsWordChar(s[0]) then [s[0]] + ReplaceNonWordRuns(s[1..])
    else "_" + ReplaceNonWordRuns(DropNonWord(s[1..]))
  }

  /** strtolower() on ASCII letters. */
  function LowerChar(c: char): char {
    if 'A' <= c <= 'Z' then (c as int - 'A' as int + 'a' as int) as char else c
  }

  function Lower(s: string): (r: string)
    ensures |r| == |s|
    ensures forall i :: 0 <= i < |s| ==> r[i] == LowerChar(s[i])
  {
    if s == [] then [] else [LowerChar(s[0])] + Lower(s[1..])
  }

  /** termManagerMachineName(): only [a-z0-9_] remains, and it is never longer than the name. */
  function MachineName(name: string): (r: string)
    ensures |r| <= |name|
    ensures forall i :: 0 <= i < |r| ==> IsMachineChar(r[i])
  {
    Lower(ReplaceNonWordRuns(name))
  }

  /** A name made only of word characters passes the replacement unchanged. */
  lemma {:induction false} ReplaceWordsOnly(s: string)
    requires forall i :: 0 <= i < |s| ==> IsWordChar(s[i])
    ensures ReplaceNonWordRuns(s) == s
  {
    if s != [] {
      ReplaceWordsOnly(s[1..]);
      assert [s[0]] + s[1..] == s;
    }
  }

  /** A run of other characters followed by a word character (or the end) becomes a single '_'. */
  lemma {:induction false} ReplaceRun(run: string, rest: string)
    requires run != [] && forall i :: 0 <= i < |run| ==> !IsWordChar(run[i])
    requires rest == [] || IsWordChar(rest[0])
    ensures ReplaceNonWordRuns(run + rest) == "_" + ReplaceNonWordRuns(rest)
  {
    DropRun(run[1..], rest);
    assert (run + rest)[1..] == run[1..] + rest;
  }

  lemma {:induction false} DropRun(run: string, rest: string)
    requires forall i :: 0 <= i < |run| ==> !IsWordChar(run[i])
    requires rest == [] || IsWordChar(rest[0])
    ensures DropNonWord(run + rest) == rest
  {
    if run == [] {
      assert run + rest == rest;
    } else {
      assert (run + rest)[1..] == run[1..] + rest;
      DropRun(run[1..], rest);
    }
  }

  /** A machine name is its own machine name. */
  lemma MachineNameIdempotent(name: string)
    ensures MachineName(MachineName(name)) == MachineName(name)
  {
    var m := MachineName(name);
    ReplaceWordsOnly(m);
    LowerMachineChars(m);
  }

  lemma LowerMachineChars(s: string)
    requires forall i :: 0 <= i < |s| ==> IsMachineChar(s[i])
    ensures Lower(s) == s
  {
  }

  /**
   * The tree the dry run owns. Seeded once from the snapshot; afterwards the
   * rules add records (create, rename) and change records in place.
   */
  class TermTree {
    var termTree: Forest

    /** buildTermTree() over a snapshot given as a list of records. */
    constructor (snapshot: seq<Term>)
      ensures termTree == BuildForest(snapshot)
    {
      termTree := map[];
      new;
      var i := 0;
      while i < |snapshot|
        invariant 0 <= i <= |snapshot|
        invariant termTree == BuildForest(snapshot[..i])
      {
        BuildForestStep(snapshot, i);
        AddTreeItem(snapshot[i]);
        i := i + 1;
      }
      assert snapshot[..i] == snapshot;
    }

    /** addTreeItem(). */
    method AddTreeItem(item: Term)
      modifies this
      ensures termTree == WithItem(old(termTree), item)
    {
      termTree := termTree[KeyOf(item) := item];
    }

    /** A property write on a record the tree holds: the record at `l` becomes `t`. */
    method Update(l: Loc, t: Term)
      requires l in termTree
      modifies this
      ensures termTree == old(termTree)[l := t]
    {
      termTree := termTree[l := t];
    }
  }
}
