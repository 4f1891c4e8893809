/**
 * TermNodeManager: the checks that decide whether a term is written to a
 * node's taxonomy field, and the update itself. A node is its field values:
 * each field name maps to the target ids it holds, in order. The storage
 * settings of the taxonomy reference fields (getFieldSettings) are a map from
 * field name to cardinality; a field absent from it is not a taxonomy
 * reference. Resolving the term named in the sheet (getTermFromNodeField) is
 * a lookup in storage, so its outcome arrives as a parameter.
 */
module NodeManager {
  import opened Php

  /** Cardinality 1: a single-value field, the kind a primary field is. */
  const SingleValue: int := 1

  /** checkNodeFieldName(): `needle` starts `str`. */
  predicate CheckNodeFieldName(str: string, needle: string) {
    StartsWith(str, needle)
  }

  /** The name check is the prefix test: the first |needle| characters of `str` are `needle`. */
  lemma NodeFieldNamePrefix(str: string, needle: string)
    ensures CheckNodeFieldName(str, needle) <==> |needle| <= |str| && str[..|needle|] == needle
  {
  }

  /** The unit test's two cases: a field_ name starts with "field", a bare name does not. */
  lemma NodeFieldNameExamples()
    ensures CheckNodeFieldName("field_primary_category", "field")
    ensures !CheckNodeFieldName("primary_category", "field")
  {
    assert "field_primary_category"[..5] == "field";
    assert "primary_category"[..5] != "field" by {
      assert "primary_category"[0] != "field"[0];
    }
  }

  /** getString() of a field: its target ids joined by ", "; "" for an empty field. */
  function FieldString(ids: seq<string>): (s: string)
    ensures ids == [] ==> s == ""
    ensures |ids| == 1 ==> s == ids[0]
  {
    if ids == [] then "" else if |ids| == 1 then ids[0] else ids[0] + ", " + FieldString(ids[1..])
  }

  /**
   * The condition of checkPrimaryEntityFields() for one field: its name
   * starts with "field", it is a taxonomy reference of cardinality 1, and
   * its value is non-empty and equal to `tid`.
   */
  predicate IsPrimaryHolding(settings: map<string, int>, values: map<string, seq<string>>, name: string, tid: string)
    requires name in values
  {
    CheckNodeFieldName(name, "field")
    && name in settings && settings[name] == SingleValue
    && !IsEmpty(FieldString(values[name]))
    && tid == FieldString(values[name])
  }

  /** Some field of `nodeFields` is a primary field holding `tid`. */
  predicate InPrimaryField(settings: map<string, int>, values: map<string, seq<string>>, nodeFields: seq<string>, tid: string)
    requires forall i :: 0 <= i < |nodeFields| ==> nodeFields[i] in values
  {
    exists i :: 0 <= i < |nodeFields| && IsPrimaryHolding(settings, values, nodeFields[i], tid)
  }

  /**
   * updateNode() as a function of the node's values: whether it writes, and
   * the values afterwards. A single-value field is replaced by the term; a
   * multiple-value field gets it appended, unless the field or a primary
   * field already holds it.
   */
  function Update(settings: map<string, int>, values: map<string, seq<string>>, cardinality: int,
                  nodeFields: seq<string>, field: string, resolved: Option<string>): (bool, map<string, seq<string>>)
    requires forall i :: 0 <= i < |nodeFields| ==> nodeFields[i] in values
  {
    if field !in values || resolved.None? then (false, values)
    else
      var tid := resolved.value;
      if cardinality == SingleValue then (true, values[field := [tid]])
      else if tid in values[field] || InPrimaryField(settings, values, nodeFields, tid) then (false, values)
      else (true, values[field := values[field] + [tid]])
  }

  /** An entity whose field values updateNode() changes and saves. */
  class Node {
    var values: map<string, seq<string>>
    /** How often the node was saved. */
    var saves: nat

    constructor (values: map<string, seq<string>>)
      ensures this.values == values && saves == 0
    {
      this.values := values;
      saves := 0;
    }

    /** hasField(). */
    predicate HasField(field: string)
      reads this
    {
      field in values
    }

    /** set() of the field to the one target id, then save(). */
    method SetAndSave(field: string, tid: string)
      modifies this
      ensures values == old(values)[field := [tid]] && saves == old(saves) + 1
    {
      values := values[field := [tid]];
      saves := saves + 1;
    }

    /** appendItem() of the target id to the field, then save(). */
    method AppendAndSave(field: string, tid: string)
      requires field in values
      modifies this
      ensures values == old(values)[field := old(values)[field] + [tid]] && saves == old(saves) + 1
    {
      values := values[field := values[field] + [tid]];
      saves := saves + 1;
    }
  }

  class TermNodeManager {
    /** getFieldSettings(): the cardinality of each taxonomy reference field of nodes. */
    const settings: map<string, int>

    constructor (settings: map<string, int>)
      ensures this.settings == settings
    {
      this.settings := settings;
    }

    /** checkExistingTermInField(): true exactly when the node has the field and `tid` is one of its target ids. */
    method CheckExistingTermInField(node: Node, tid: string, field: string) returns (found: bool)
      ensures found <==> field in node.values && tid in node.values[field]
    {
      found := false;
      if node.HasField(field) {
        var fieldValues := node.values[field];
        if fieldValues != [] {
          var existing: seq<string> := [];
          var i := 0;
          while i < |fieldValues|
            invariant 0 <= i <= |fieldValues|
            invariant existing == fieldValues[..i]
          {
            existing := existing + [fieldValues[i]];
            i := i + 1;
          }
          assert existing == fieldValues;
          if existing != [] && tid in existing {
            found := true;
          }
        }
      }
    }

    /** checkPrimaryEntityFields(): true exactly when some field of `nodeFields` is a primary field holding `tid`. */
    method CheckPrimaryEntityFields(node: Node, nodeFields: seq<string>, tid: string) returns (found: bool)
      requires forall i :: 0 <= i < |nodeFields| ==> nodeFields[i] in node.values
      ensures found <==> InPrimaryField(settings, node.values, nodeFields, tid)
    {
      var i := 0;
      while i < |nodeFields|
        invariant 0 <= i <= |nodeFields|
        invariant forall j :: 0 <= j < i ==> !IsPrimaryHolding(settings, node.values, nodeFields[j], tid)
      {
        var name := nodeFields[i];
        if CheckNodeFieldName(name, "field") && name in settings && settings[name] == SingleValue {
          var checkFieldTid := FieldString(node.values[name]);
          if !IsEmpty(checkFieldTid) && tid == checkFieldTid {
            return true;
          }
        }
        i := i + 1;
      }
      return false;
    }

    /**
     * updateNode(): writes the resolved term to the node's field and saves
     * the node, or leaves the node alone; the result says which.
     */
    method UpdateNode(node: Node, cardinality: int, nodeFields: seq<string>, field: string, resolved: Option<string>)
      returns (updated: bool)
      requires forall i :: 0 <= i < |nodeFields| ==> nodeFields[i] in node.values
      modifies node
      ensures (updated, node.values) == Update(settings, old(node.values), cardinality, nodeFields, field, resolved)
      ensures node.saves == old(node.saves) + (if updated then 1 else 0)
    {
      updated := false;
      if node.HasField(field) {
        if resolved.Some? {
          var tid := resolved.value;
          if cardinality == SingleValue {
            node.SetAndSave(field, tid);
            updated := true;
          } else {
            var existing := CheckExistingTermInField(node, tid, field);
            if !existing {
              var primary := CheckPrimaryEntityFields(node, nodeFields, tid);
              if !primary {
                node.AppendAndSave(field, tid);
                updated := true;
              }
            }
          }
        }
      }
    }
  }

  /**
   * The node is left as it was when it lacks the field or no term resolves;
   * when it is written, only `field` changes and then holds the term.
   */
  lemma UpdateTouchesOnlyField(settings: map<string, int>, values: map<string, seq<string>>, cardinality: int,
                               nodeFields: seq<string>, field: string, resolved: Option<string>)
    requires forall i :: 0 <= i < |nodeFields| ==> nodeFields[i] in values
    ensures var (updated, after) := Update(settings, values, cardinality, nodeFields, field, resolved);
      (field !in values || resolved.None? ==> !updated && after == values)
      && (!updated ==> after == values)
      && (updated ==> after.Keys == values.Keys && resolved.Some? && resolved.value in after[field]
                      && forall name :: name in values && name != field ==> after[name] == values[name])
  {
  }

  /**
   * A multiple-value field is written only with a term it lacks and no
   * primary field holds, and then the term is appended after the values it
   * had; a single-value field is always written, with exactly the term.
   */
  lemma UpdateWrites(settings: map<string, int>, values: map<string, seq<string>>, cardinality: int,
                     nodeFields: seq<string>, field: string, tid: string)
    requires forall i :: 0 <= i < |nodeFields| ==> nodeFields[i] in values
    requires field in values
    ensures var (updated, after) := Update(settings, values, cardinality, nodeFields, field, Some(tid));
      if cardinality == SingleValue then updated && after[field] == [tid]
      else
        (updated <==> tid !in values[field] && !InPrimaryField(settings, values, nodeFields, tid))
        && (updated ==> after[field] == values[field] + [tid])
  {
  }

  /**
   * Writing a term to a multiple-value field twice writes it once: the
   * second update finds the term in the field and changes nothing.
   */
  lemma {:induction false} UpdateOnceMulti(settings: map<string, int>, values: map<string, seq<string>>, cardinality: int,
                                           nodeFields: seq<string>, field: string, resolved: Option<string>)
    requires forall i :: 0 <= i < |nodeFields| ==> nodeFields[i] in values
    requires cardinality != SingleValue
    ensures var after := Update(settings, values, cardinality, nodeFields, field, resolved).1;
      (forall i :: 0 <= i < |nodeFields| ==> nodeFields[i] in after)
      && !Update(settings, after, cardinality, nodeFields, field, resolved).0
      && Update(settings, after, cardinality, nodeFields, field, resolved).1 == after
  {
    var (updated, after) := Update(settings, values, cardinality, nodeFields, field, resolved);
    if updated {
      var tid := resolved.value;
      assert tid in after[field] by {
        assert after[field] == values[field] + [tid];
        assert after[field][|values[field]|] == tid;
      }
    }
  }

  /** The node of the functional test: cat1 in the primary field, a multiple-value categories field. */
  const TestSettings: map<string, int> := map["field_primary_category" := 1, "field_categories" := -1]
  const TestFields: seq<string> := ["field_primary_category", "field_categories"]

  /**
   * The functional test's two updates of field_categories: cat1 is refused
   * because the primary field already holds it; cat2 is appended.
   */
  lemma FunctionalTestUpdates(cat1: string, cat2: string)
    requires cat1 != "" && cat1 != "0" && cat2 != cat1
    ensures var values := map["field_primary_category" := [cat1], "field_categories" := []];
      Update(TestSettings, values, -1, TestFields, "field_categories", Some(cat1)) == (false, values)
      && Update(TestSettings, values, -1, TestFields, "field_categories", Some(cat2))
         == (true, values["field_categories" := [cat2]])
  {
    var values := map["field_primary_category" := [cat1], "field_categories" := []];
    NodeFieldNameExamples();
    assert IsPrimaryHolding(TestSettings, values, TestFields[0], cat1);
    assert !InPrimaryField(TestSettings, values, TestFields, cat2) by {
      assert "field_categories" != "field_primary_category";
      assert !IsPrimaryHolding(TestSettings, values, TestFields[0], cat2);
      assert !IsPrimaryHolding(TestSettings, values, TestFields[1], cat2);
    }
    assert values["field_categories"] + [cat2] == [cat2];
  }
}
