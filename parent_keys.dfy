/**
 * getParents() as PHP builds its array. Each level stores the parent under
 * its name and array_merge()s the parents above it. PHP turns a name that
 * reads as a decimal integer (a year such as "2020") into an integer key.
 * array_merge() renumbers integer keys 0, 1, … in order. So moveParent()'s
 * isset($parents[$term->term_name]) tests a position, not a name, whenever
 * the name reads as an integer. `Rules.MoveParentRule` uses the name test the
 * code evidently means; this module models the ancestor test as written and shows
 * where the two part.
 */
module ParentKeys {
  import opened Php
  import opened Errors
  import opened Item
  import opened Terms
  import opened Tree
  import opened Rules
  import opened RuleProperties

  predicate IsDigit(c: char) {
    '0' <= c <= '9'
  }

  /** Digits with no leading zero. */
  predicate IsNonZeroNumeral(s: string) {
    |s| > 0 && '1' <= s[0] <= '9' && forall i :: 0 <= i < |s| ==> IsDigit(s[i])
  }

  /** The value of a string of decimal digits. */
  function DigitsValue(s: string): (n: nat)
    requires forall i :: 0 <= i < |s| ==> IsDigit(s[i])
    ensures s == [] ==> n == 0
    ensures |s| == 1 ==> n == s[0] as int - '0' as int
  {
    if s == [] then 0
    else
      assert IsDigit(s[|s| - 1]);
      DigitsValue(s[..|s| - 1]) * 10 + (s[|s| - 1] as int - '0' as int)
  }

  /** The largest integer PHP holds on a 64-bit build. */
  const PhpIntMax: int := 0x7FFF_FFFF_FFFF_FFFF

  /**
   * A string PHP stores as an integer key: "0", or a decimal integer with an
   * optional minus sign and no plus sign, leading zero or "-0", within the
   * 64-bit range.
   */
  predicate IsIntegerKey(s: string) {
    if s == "0" then true
    else if |s| > 0 && s[0] == '-' then IsNonZeroNumeral(s[1..]) && DigitsValue(s[1..]) <= PhpIntMax + 1
    else IsNonZeroNumeral(s) && DigitsValue(s) <= PhpIntMax
  }

  /** The integer a name stands for as an array key. */
  function IntegerKey(s: string): int
    requires IsIntegerKey(s)
  {
    if s == "0" then 0 else if s[0] == '-' then -(DigitsValue(s[1..]) as int) else DigitsValue(s)
  }

  /**
   * The keys of getParents()'s array: the names kept as string keys, and how
   * many integer keys array_merge() renumbered to 0 .. ints - 1.
   */
  datatype Keys = Keys(names: set<string>, ints: nat)

  /** array_merge() of the one-entry array for `name` with the parents above it. */
  function MergeKeys(name: string, rest: Keys): (k: Keys)
    ensures IsIntegerKey(name) ==> k == rest.(ints := rest.ints + 1)
    ensures !IsIntegerKey(name) ==> k == rest.(names := rest.names + {name})
  {
    if IsIntegerKey(name) then Keys(rest.names, rest.ints + 1) else Keys({name} + rest.names, rest.ints)
  }

  /** The keys of getParents($t), walked the way `Rules.ParentNames` walks it. */
  function ParentKeys(f: Forest, t: Term, fuel: nat): Keys
    decreases fuel
  {
    if fuel == 0 then Keys({}, 0)
    else
      match GetTreeItem(f, t.parentTermName, t.vocabularyName, "")
      case Err(_) => Keys({}, 0)
      case Ok(pl) => MergeKeys(t.parentTermName, ParentKeys(f, f[pl], fuel - 1))
  }

  /** isset($parents[$name]): a name that reads as an integer looks for that position. */
  predicate IsSetIn(keys: Keys, name: string) {
    if IsIntegerKey(name) then 0 <= IntegerKey(name) < keys.ints else name in keys.names
  }

  /**
   * The string keys are exactly the parent names that do not read as
   * integers, and there is at most one integer key per step of the walk.
   */
  lemma {:induction false} ParentKeysNames(f: Forest, t: Term, fuel: nat)
    ensures ParentKeys(f, t, fuel).names == StringKeys(ParentNames(f, t, fuel))
    ensures ParentKeys(f, t, fuel).ints <= fuel
    decreases fuel
  {
    ParentStep(f, t, fuel);
    if fuel > 0 && GetTreeItem(f, t.parentTermName, t.vocabularyName, "").Ok? {
      var pl := GetTreeItem(f, t.parentTermName, t.vocabularyName, "").value;
      ParentKeysNames(f, f[pl], fuel - 1);
      MergeKeysNames(t.parentTermName, ParentKeys(f, f[pl], fuel - 1), ParentNames(f, f[pl], fuel - 1));
    }
  }

  /** One step of both walks: both stop together, or both go on to the parent the lookup finds. */
  lemma ParentStep(f: Forest, t: Term, fuel: nat)
    ensures fuel == 0 || GetTreeItem(f, t.parentTermName, t.vocabularyName, "").Err? ==>
      ParentKeys(f, t, fuel) == Keys({}, 0) && ParentNames(f, t, fuel) == {}
    ensures fuel > 0 && GetTreeItem(f, t.parentTermName, t.vocabularyName, "").Ok? ==>
      var pl := GetTreeItem(f, t.parentTermName, t.vocabularyName, "").value;
      && ParentKeys(f, t, fuel) == MergeKeys(t.parentTermName, ParentKeys(f, f[pl], fuel - 1))
      && ParentNames(f, t, fuel) == {t.parentTermName} + ParentNames(f, f[pl], fuel - 1)
  {
  }

  /** So for a name that does not read as an integer, isset() is the name test. */
  lemma IsSetInNames(f: Forest, t: Term, fuel: nat)
    ensures forall name :: !IsIntegerKey(name) ==>
      (IsSetIn(ParentKeys(f, t, fuel), name) <==> name in ParentNames(f, t, fuel))
  {
    ParentKeysNames(f, t, fuel);
  }

  /** The names of a set that PHP keeps as string keys. */
  function StringKeys(names: set<string>): set<string> {
    set n | n in names && !IsIntegerKey(n)
  }

  /** One level of getParents(): the merged keys against the names met so far. */
  lemma MergeKeysNames(name: string, rest: Keys, names: set<string>)
    requires rest.names == StringKeys(names)
    ensures MergeKeys(name, rest).names == StringKeys({name} + names)
    ensures MergeKeys(name, rest).ints <= rest.ints + 1
  {
  }

  /** moveParent() with the ancestor test as written: isset() on getParents()'s array. */
  function MoveParentRuleAsWritten(f: Forest, termName: string, vocabularyName: string, tid: string,
                                   targetTermName: string, targetTid: string): Outcome
  {
    match GetTreeItem(f, termName, vocabularyName, tid)
    case Err(e) => Fail(f, e)
    case Ok(tl) =>
      var term := f[tl];
      if term.action == MoveParent then Fail(f, AlreadyMoved)
      else if IsEmpty(targetTermName) then DetachAndMark(f, tl, vocabularyName, None)
      else
        match GetTreeItem(f, targetTermName, vocabularyName, targetTid)
        case Err(e) => Fail(f, e)
        case Ok(pl) =>
          if f[pl].tid == term.tid then Fail(f, SelfParent)
          else if IsSetIn(ParentKeys(f, f[pl], |f|), term.termName) then Fail(f, IsAncestor)
          else DetachAndMark(f[pl := f[pl].AddChild(term.tid)], tl, vocabularyName, Some(pl))
  }

  /**
   * The rule as written and the corrected rule part only when the term to
   * move has a name that reads as an integer.
   */
  lemma AsWrittenAgrees(f: Forest, termName: string, vocabularyName: string, tid: string,
                        targetTermName: string, targetTid: string)
    ensures MoveParentRuleAsWritten(f, termName, vocabularyName, tid, targetTermName, targetTid)
            != MoveParentRule(f, termName, vocabularyName, tid, targetTermName, targetTid)
      ==> GetTreeItem(f, termName, vocabularyName, tid).Ok?
          && IsIntegerKey(f[GetTreeItem(f, termName, vocabularyName, tid).value].termName)
  {
    match GetTreeItem(f, termName, vocabularyName, tid)
    case Err(_) =>
    case Ok(tl) =>
      if !IsEmpty(targetTermName) {
        match GetTreeItem(f, targetTermName, vocabularyName, targetTid)
        case Err(_) =>
        case Ok(pl) => IsSetInNames(f, f[pl], |f|);
      }
  }

  /**
   * The ancestor test as written refuses a move under a record whose parent chain
   * reaches the term, as the corrected ancestor test does, as long as the term's name
   * does not read as an integer.
   */
  lemma AsWrittenUnderDescendantRefused(f: Forest, termName: string, vocabularyName: string, tid: string,
                                        targetTermName: string, targetTid: string, n: nat)
    requires !IsEmpty(targetTermName) && n <= |f|
    requires GetTreeItem(f, termName, vocabularyName, tid).Ok?
    requires f[GetTreeItem(f, termName, vocabularyName, tid).value].action != MoveParent
    requires !IsIntegerKey(f[GetTreeItem(f, termName, vocabularyName, tid).value].termName)
    requires GetTreeItem(f, targetTermName, vocabularyName, targetTid).Ok?
    requires var tl := GetTreeItem(f, termName, vocabularyName, tid).value;
      var pl := GetTreeItem(f, targetTermName, vocabularyName, targetTid).value;
      f[pl].tid != f[tl].tid && f[tl].termName in ParentNames(f, f[pl], n)
    ensures MoveParentRuleAsWritten(f, termName, vocabularyName, tid, targetTermName, targetTid).error == Some(IsAncestor)
  {
    MoveUnderDescendantRefused(f, termName, vocabularyName, tid, targetTermName, targetTid, n);
    AsWrittenAgrees(f, termName, vocabularyName, tid, targetTermName, targetTid);
  }

  /** "2020" is stored as the integer key 2020. */
  lemma YearIsIntegerKey()
    ensures IsIntegerKey("2020") && IntegerKey("2020") == 2020
  {
    assert "2020"[..3] == "202" && "202"[..2] == "20" && "20"[..1] == "2";
    assert DigitsValue("2") == 2;
    assert DigitsValue("20") == 20;
    assert DigitsValue("202") == 202;
    assert DigitsValue("2020") == 2020;
    assert IsNonZeroNumeral("2020");
  }

  /** A record of vocabulary Tags, with no action, no nodes and no lock. */
  function TagsTerm(name: string, tid: string, parentName: string, parentTid: string, children: set<string>): Term {
    Term("Tags", name, tid, "1", parentName, parentTid, 0, children, |children|, NoAction, "", false, "", "", "", "", "")
  }

  /** Tags > 2020 is a root; Tags > News sits under it. */
  const Year: Term := TagsTerm("2020", "7", "", "", {"8"})
  const News: Term := TagsTerm("News", "8", "2020", "7", {})
  const YearOverNews: Forest := map[Loc("Tags", "2020", "7") := Year, Loc("Tags", "News", "8") := News]

  lemma TagsNamesTrimmed()
    ensures Trim("Tags") == "Tags" && Trim("2020") == "2020" && Trim("News") == "News" && Trim("") == ""
  {
  }

  /** The lookups the move below makes in YearOverNews: each name finds its one record. */
  lemma YearOverNewsLookups()
    ensures GetTreeItem(YearOverNews, "2020", "Tags", "7") == Ok(Loc("Tags", "2020", "7"))
    ensures GetTreeItem(YearOverNews, "News", "Tags", "8") == Ok(Loc("Tags", "News", "8"))
    ensures GetTreeItem(YearOverNews, "2020", "Tags", "") == Ok(Loc("Tags", "2020", "7"))
    ensures GetTreeItem(YearOverNews, "", "Tags", "").Err?
  {
    var yl, nl := Loc("Tags", "2020", "7"), Loc("Tags", "News", "8");
    TagsNamesTrimmed();
    var onlyNews: Forest := map[nl := News];
    var onlyYear: Forest := map[yl := Year];
    assert YearOverNews == onlyNews[yl := Year] == onlyYear[nl := News];
    assert Tids(onlyNews, "Tags", "2020") == {};
    assert Tids(onlyYear, "Tags", "News") == {};
    FindAfterStore(onlyNews, yl, Year, "2020", "Tags", "7");
    FindAfterStore(onlyNews, yl, Year, "2020", "Tags", "");
    FindAfterStore(onlyYear, nl, News, "News", "Tags", "8");
    assert Tids(YearOverNews, "Tags", "") == {};
  }

  /** News's parents: the corrected walk finds the name 2020; PHP's array holds it at position 0. */
  lemma NewsParents()
    ensures |YearOverNews| == 2
    ensures ParentNames(YearOverNews, News, 2) == {"2020"}
    ensures ParentKeys(YearOverNews, News, 2) == Keys({}, 1)
  {
    var f := YearOverNews;
    assert f.Keys == {Loc("Tags", "2020", "7"), Loc("Tags", "News", "8")};
    YearOverNewsLookups();
    assert ParentNames(f, Year, 1) == {};
    assert ParentKeys(f, Year, 1) == Keys({}, 0);
    YearIsIntegerKey();
  }

  /**
   * Moving Tags > 2020 under its own child News. The corrected rule refuses
   * it, because 2020 is among News's parents.
   */
  lemma IntegerNameRefused()
    ensures MoveParentRule(YearOverNews, "2020", "Tags", "7", "News", "8") == Outcome(YearOverNews, Some(IsAncestor))
  {
    YearOverNewsLookups();
    NewsParents();
    PastChecks(YearOverNews, "2020", "Tags", "7", "News", "8", Loc("Tags", "2020", "7"), Loc("Tags", "News", "8"));
  }

  /**
   * The same move under the rule as written goes through, because
   * getParents(News) is [0 => 2020] and isset() looks for position 2020.
   * Afterwards 2020 names News as its parent and News names 2020: a parent
   * cycle, on which getParents() never returns.
   */
  lemma IntegerNameCycle()
    ensures var r := MoveParentRuleAsWritten(YearOverNews, "2020", "Tags", "7", "News", "8");
      && r.error == None
      && Loc("Tags", "2020", "7") in r.forest && r.forest[Loc("Tags", "2020", "7")].parentTermName == "News"
      && Loc("Tags", "News", "8") in r.forest && r.forest[Loc("Tags", "News", "8")].parentTermName == "2020"
  {
    var yl, nl := Loc("Tags", "2020", "7"), Loc("Tags", "News", "8");
    YearOverNewsLookups();
    NewsParents();
    YearIsIntegerKey();
    PastChecks(YearOverNews, "2020", "Tags", "7", "News", "8", yl, nl);
    var g := YearOverNews[nl := News.AddChild("7")];
    assert Unlink(g, yl, "Tags", "7") == Ok(g);
  }

  /**
   * Both rules once the term and the target are found and the first checks
   * pass: each refuses when its ancestor test holds and otherwise links the
   * term under the target.
   */
  lemma PastChecks(f: Forest, termName: string, vocabularyName: string, tid: string,
                   targetTermName: string, targetTid: string, tl: Loc, pl: Loc)
    requires GetTreeItem(f, termName, vocabularyName, tid) == Ok(tl)
    requires GetTreeItem(f, targetTermName, vocabularyName, targetTid) == Ok(pl)
    requires f[tl].action != MoveParent && !IsEmpty(targetTermName) && f[pl].tid != f[tl].tid
    ensures MoveParentRule(f, termName, vocabularyName, tid, targetTermName, targetTid)
      == if f[tl].termName in Ancestors(f, f[pl]) then Fail(f, IsAncestor)
         else DetachAndMark(f[pl := f[pl].AddChild(f[tl].tid)], tl, vocabularyName, Some(pl))
    ensures MoveParentRuleAsWritten(f, termName, vocabularyName, tid, targetTermName, targetTid)
      == if IsSetIn(ParentKeys(f, f[pl], |f|), f[tl].termName) then Fail(f, IsAncestor)
         else DetachAndMark(f[pl := f[pl].AddChild(f[tl].tid)], tl, vocabularyName, Some(pl))
  {
  }

}
