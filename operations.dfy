/**
 * TermManagerOperationList (src/Operations/TermManagerOperationList.php and
 * its older twin src/TermManagerOperationList.php): the ordered list of
 * processed rows, the error list built beside it, and the Iterator over the
 * rows. Also the delimiter detection both the list and the dry run offer.
 */
module Operations {
  import opened Php
  import opened Errors
  import opened Item

  /**
   * One row of the sheet: the columns it was given, by name, and the error
   * its processing recorded. The error is the exception's message in the
   * source; the model keeps the kind of message.
   */
  datatype Operation = Operation(data: map<string, string>, error: Option<Error>)
  {
    /** Reading a column: an unset column reads as PHP null, which the model writes "". */
    function Get(key: string): (v: string)
      ensures key in data ==> v == data[key]
      ensures key !in data ==> v == ""
    {
      if key in data then data[key] else ""
    }

    /**
     * Assigning a column through `__set`: the value is stored whatever it is;
     * an action outside the allowed list also replaces the row's error.
     */
    function Assign(key: string, value: string): (r: Operation)
      ensures r.data == data[key := value] && r.Get(key) == value
      ensures r.error == (if SetError(key, value).Some? then SetError(key, value) else error)
    {
      Operation(data[key := value], if SetError(key, value).Some? then SetError(key, value) else error)
    }
  }

  /** An operation with no column set and no error. */
  const EmptyOperation := Operation(map[], None)

  /** One entry of the error list: the row's vocabulary and term names and its message. */
  datatype ErrorEntry = ErrorEntry(vocabularyName: string, termName: string, message: Error)

  /** The entry `add` records for a row, if its error is not empty. */
  function EntryFor(item: Operation): (r: seq<ErrorEntry>)
    ensures |r| == (if item.error.Some? then 1 else 0)
  {
    if item.error.Some? then [ErrorEntry(item.Get("vocabulary_name"), item.Get("term_name"), item.error.value)] else []
  }

  /** The error list that adding `items` in order builds: one entry per row with an error, in row order. */
  function ErrorEntries(items: seq<Operation>): (r: seq<ErrorEntry>)
    ensures |r| <= |items|
  {
    if items == [] then [] else ErrorEntries(items[..|items| - 1]) + EntryFor(items[|items| - 1])
  }

  /** The rows with an error, in order. */
  function Failed(items: seq<Operation>): (r: seq<Operation>)
    ensures |r| <= |items|
    ensures forall i :: 0 <= i < |r| ==> r[i].error.Some? && r[i] in items
  {
    if items == [] then []
    else Failed(items[..|items| - 1]) + (if items[|items| - 1].error.Some? then [items[|items| - 1]] else [])
  }

  /** The error list holds exactly one entry per failed row, in the same order, naming that row and its error. */
  lemma {:induction false} ErrorEntriesAreFailedRows(items: seq<Operation>)
    ensures |ErrorEntries(items)| == |Failed(items)|
    ensures forall i :: 0 <= i < |Failed(items)| ==>
      ErrorEntries(items)[i] == ErrorEntry(Failed(items)[i].Get("vocabulary_name"), Failed(items)[i].Get("term_name"),
                                           Failed(items)[i].error.value)
  {
    if items != [] {
      ErrorEntriesAreFailedRows(items[..|items| - 1]);
    }
  }

  /** A list in which no row has an error has an empty error list. */
  lemma {:induction false} NoErrorsNoEntries(items: seq<Operation>)
    requires forall i :: 0 <= i < |items| ==> items[i].error.None?
    ensures ErrorEntries(items) == []
  {
    if items != [] {
      NoErrorsNoEntries(items[..|items| - 1]);
    }
  }

  class OperationList {
    /** The Iterator position. */
    var position: int
    var operationList: seq<Operation>
    var errorList: seq<ErrorEntry>

    /** The error list is the one the added rows build. */
    ghost predicate ErrorsTracked()
      reads this
    {
      errorList == ErrorEntries(operationList)
    }

    constructor ()
      ensures position == 0 && operationList == [] && errorList == [] && ErrorsTracked()
    {
      position := 0;
      operationList := [];
      errorList := [];
    }

    /** add(): always appends the row; appends an error entry exactly when the row has an error. */
    method Add(item: Operation)
      modifies this
      ensures operationList == old(operationList) + [item]
      ensures errorList == old(errorList) + EntryFor(item)
      ensures position == old(position)
      ensures old(ErrorsTracked()) ==> ErrorsTracked()
    {
      if item.error.Some? {
        errorList := errorList + [ErrorEntry(item.Get("vocabulary_name"), item.Get("term_name"), item.error.value)];
      }
      operationList := operationList + [item];
      assert operationList[..|operationList| - 1] == old(operationList);
    }

    /** getItems(): the rows in the order they were added. */
    method GetItems() returns (items: seq<Operation>)
      ensures items == operationList
    {
      items := operationList;
    }

    /** getErrorList(): the error entries in the order they were recorded. */
    method GetErrorList() returns (errors: seq<ErrorEntry>)
      ensures errors == errorList
    {
      errors := errorList;
    }

    /** count(): the number of rows added. */
    function Count(): (n: nat)
      reads this
      ensures n == |operationList|
    {
      |operationList|
    }

    /** rewind(). */
    method Rewind()
      modifies this
      ensures position == 0
      ensures operationList == old(operationList) && errorList == old(errorList)
    {
      position := 0;
    }

    /** current(): the row at the position, or nothing (PHP null) past the end. */
    function Current(): (r: Option<Operation>)
      reads this
      ensures r.Some? <==> 0 <= position < |operationList|
      ensures r.Some? ==> r.value == operationList[position]
    {
      if 0 <= position < |operationList| then Some(operationList[position]) else None
    }

    /** key(). */
    function Key(): int
      reads this
    {
      position
    }

    /** next(). */
    method Next()
      modifies this
      ensures position == old(position) + 1
      ensures operationList == old(operationList) && errorList == old(errorList)
    {
      position := position + 1;
    }

    /** valid(): isset() on the row at the position. */
    predicate Valid()
      reads this
    {
      0 <= position < |operationList|
    }

    /**
     * A foreach over the list: rewind(), then current()/key()/next() while
     * valid(). It visits every row once, at keys 0..count()-1, in insertion
     * order, and leaves the position at count().
     */
    method Iterate() returns (visited: seq<Operation>, keys: seq<int>)
      modifies this
      ensures visited == operationList && |keys| == |visited|
      ensures forall i :: 0 <= i < |keys| ==> keys[i] == i
      ensures position == Count() && !Valid()
      ensures operationList == old(operationList) && errorList == old(errorList)
    {
      Rewind();
      visited := [];
      keys := [];
      while Valid()
        invariant 0 <= position <= |operationList|
        invariant operationList == old(operationList) && errorList == old(errorList)
        invariant visited == operationList[..position] && |keys| == position
        invariant forall i :: 0 <= i < |keys| ==> keys[i] == i
        decreases |operationList| - position
      {
        visited := visited + [Current().value];
        keys := keys + [Key()];
        Next();
      }
      assert visited == operationList[..|operationList|];
    }
  }

  // ------------------------------------------------------------ delimiters

  /** getDelimiters(): comma, semicolon, tab, pipe, colon, space, in that order. */
  const Delimiters: seq<char> := [',', ';', '\t', '|', ':', ' ']

  /** The loop of detectDelimiter() from candidate `cands[0]` on, with the running maximum and choice so far. */
  function Scan(str: string, rows: nat, cands: seq<char>, curCnt: nat, delimiter: Option<char>): Option<char>
  {
    if cands == [] then delimiter
    else
      var count := Occurrences(str, cands[0]);
      if count > curCnt then
        Scan(str, rows, cands[1..], count, if count > rows then Some(cands[0]) else delimiter)
      else Scan(str, rows, cands[1..], curCnt, delimiter)
  }

  /** detectDelimiter() of a text with a default: the candidate scan with the number of newlines as the row count. */
  function DetectDelimiterSpec(str: string, default: Option<char>): Option<char> {
    Scan(str, Occurrences(str, '\n'), Delimiters, 0, default)
  }

  /** The largest number of occurrences of any candidate. */
  function MaxCount(str: string, cands: seq<char>): (m: nat)
    ensures forall i :: 0 <= i < |cands| ==> Occurrences(str, cands[i]) <= m
    ensures cands != [] ==> exists i :: 0 <= i < |cands| && Occurrences(str, cands[i]) == m
    ensures cands == [] ==> m == 0
  {
    if cands == [] then 0
    else
      var rest := MaxCount(str, cands[1..]);
      var c := Occurrences(str, cands[0]);
      if c >= rest then c
      else
        assert cands[1..] != [];
        var j :| 0 <= j < |cands[1..]| && Occurrences(str, cands[1..][j]) == rest;
        assert Occurrences(str, cands[j + 1]) == rest;
        rest
  }

  /** The first candidate that reaches the largest count. */
  function FirstMax(str: string, cands: seq<char>): (i: nat)
    requires cands != []
    ensures i < |cands| && Occurrences(str, cands[i]) == MaxCount(str, cands)
    ensures forall j :: 0 <= j < i ==> Occurrences(str, cands[j]) < MaxCount(str, cands)
  {
    if Occurrences(str, cands[0]) == MaxCount(str, cands) then 0
    else 1 + FirstMax(str, cands[1..])
  }

  /**
   * What the scan picks: the first candidate with the largest count, when that
   * count beats both the running maximum it started from and the number of
   * rows; otherwise the choice it started with.
   */
  lemma {:induction false} ScanPicksFirstMax(str: string, rows: nat, cands: seq<char>, curCnt: nat, delimiter: Option<char>)
    ensures Scan(str, rows, cands, curCnt, delimiter) ==
      if MaxCount(str, cands) > curCnt && MaxCount(str, cands) > rows then Some(cands[FirstMax(str, cands)])
      else delimiter
  {
    if cands != [] {
      var count := Occurrences(str, cands[0]);
      var m := MaxCount(str, cands);
      var rest := MaxCount(str, cands[1..]);
      if count > curCnt {
        var d := if count > rows then Some(cands[0]) else delimiter;
        ScanPicksFirstMax(str, rows, cands[1..], count, d);
        if rest > count {
          assert FirstMax(str, cands) == 1 + FirstMax(str, cands[1..]);
        }
      } else {
        ScanPicksFirstMax(str, rows, cands[1..], curCnt, delimiter);
        if rest > curCnt {
          assert FirstMax(str, cands) == 1 + FirstMax(str, cands[1..]);
        }
      }
    }
  }

  /**
   * detectDelimiter() returns the supplied default unless some candidate
   * occurs more often than there are newlines; then it returns the first
   * candidate with the largest count (ties go to the earlier candidate).
   */
  lemma DetectDelimiterChoice(str: string, default: Option<char>)
    ensures var rows := Occurrences(str, '\n');
      DetectDelimiterSpec(str, default) ==
        if MaxCount(str, Delimiters) > rows then Some(Delimiters[FirstMax(str, Delimiters)]) else default
  {
    ScanPicksFirstMax(str, Occurrences(str, '\n'), Delimiters, 0, default);
  }

  /** The loop of detectDelimiter(), with its running maximum `cur_cnt`. */
  method DetectDelimiter(str: string, default: Option<char>) returns (delimiter: Option<char>)
    ensures delimiter == DetectDelimiterSpec(str, default)
    ensures delimiter == default || (delimiter.Some? && delimiter.value in Delimiters)
  {
    var rows := Occurrences(str, '\n');
    var curCnt := 0;
    delimiter := default;
    var i := 0;
    while i < |Delimiters|
      invariant 0 <= i <= |Delimiters|
      invariant Scan(str, rows, Delimiters[i..], curCnt, delimiter) == DetectDelimiterSpec(str, default)
      invariant delimiter == default || (delimiter.Some? && delimiter.value in Delimiters)
    {
      var value := Delimiters[i];
      var count := Occurrences(str, value);
      assert Delimiters[i..][1..] == Delimiters[i + 1..];
      if count > curCnt {
        curCnt := count;
        if count > rows {
          delimiter := Some(value);
        }
      }
      i := i + 1;
    }
  }

  /**
   * The test sheet of the unit tests,
   * "node,field,value 226087,field_primary_category,oil 44895,field_primary_category,share tips,226087,field_primary_category,oil price",
   * written as its space-separated words, each the comma-joined fields it holds.
   */
  const FixtureWords: seq<seq<string>> := [
    ["node", "field", "value"],
    ["226087", "field_primary_category", "oil"],
    ["44895", "field_primary_category", "share"],
    ["tips", "226087", "field_primary_category", "oil"],
    ["price"]]

  function JoinWords(words: seq<seq<string>>): (r: seq<string>)
    requires forall i :: 0 <= i < |words| ==> |words[i]| >= 1
    ensures |r| == |words| && forall i :: 0 <= i < |words| ==> r[i] == Implode(words[i], ',')
  {
    if words == [] then [] else [Implode(words[0], ',')] + JoinWords(words[1..])
  }

  const Fixture: string := Implode(JoinWords(FixtureWords), ' ')

  /** No field of the test sheet holds a candidate delimiter or a newline. */
  lemma FixtureFieldsPlain(c: char)
    requires c in Delimiters || c == '\n'
    ensures forall i, j :: 0 <= i < |FixtureWords| && 0 <= j < |FixtureWords[i]| ==> c !in FixtureWords[i][j]
  {
  }

  /** A candidate other than comma and space, or a newline, does not occur in the test sheet. */
  lemma FixtureAbsent(c: char)
    requires (c in Delimiters && c != ',' && c != ' ') || c == '\n'
    ensures Occurrences(Fixture, c) == 0
  {
    var words := JoinWords(FixtureWords);
    FixtureFieldsPlain(c);
    forall i | 0 <= i < |words| ensures c !in words[i] {
      ImplodeAbsent(FixtureWords[i], ',', c);
    }
    ImplodeAbsent(words, ' ', c);
  }

  /** The test sheet holds nine commas: 2 + 2 + 2 + 3 + 0 over its words. */
  lemma FixtureCommas()
    ensures Occurrences(Fixture, ',') == 9
  {
    var w := JoinWords(FixtureWords);
    FixtureFieldsPlain(',');
    forall i | 0 <= i < |w| ensures Occurrences(w[i], ',') == |FixtureWords[i]| - 1 {
      OccurrencesImplodeSep(FixtureWords[i], ',');
    }
    OccurrencesImplodeOther(w, ' ', ',');
    assert w[4..][1..] == [] && w[3..][1..] == w[4..] && w[2..][1..] == w[3..] && w[1..][1..] == w[2..];
    assert SumOccurrences(w[4..], ',') == 0;
    assert SumOccurrences(w[3..], ',') == 3;
    assert SumOccurrences(w[2..], ',') == 5;
    assert SumOccurrences(w[1..], ',') == 7;
  }

  /** The test sheet holds four spaces, one between each pair of its five words. */
  lemma FixtureSpaces()
    ensures Occurrences(Fixture, ' ') == 4
  {
    var w := JoinWords(FixtureWords);
    FixtureFieldsPlain(' ');
    forall i | 0 <= i < |w| ensures ' ' !in w[i] {
      ImplodeAbsent(FixtureWords[i], ',', ' ');
    }
    OccurrencesImplodeSep(w, ' ');
  }

  /** On the test sheet the detected delimiter is the comma: nine commas against four spaces and no newline. */
  lemma FixtureDelimiter()
    ensures DetectDelimiterSpec(Fixture, None) == Some(',')
  {
    FixtureCommas();
    FixtureSpaces();
    FixtureAbsent(';');
    FixtureAbsent('\t');
    FixtureAbsent('|');
    FixtureAbsent(':');
    FixtureAbsent('\n');
    assert MaxCount(Fixture, Delimiters) == 9;
    assert FirstMax(Fixture, Delimiters) == 0;
    DetectDelimiterChoice(Fixture, None);
  }
}
