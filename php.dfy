/**
 * The few PHP string and array built-ins the term manager relies on, stated
 * over Dafny strings: `trim`, `empty`, `explode`/`implode`, `strpos(...) === 0`
 * and the occurrence count that `preg_match_all` yields for one character.
 */
module Php {

  datatype Option<+T> = None | Some(value: T)

  /** The characters PHP's trim() strips by default: " \t\n\r\0\x0B". */
  predicate IsTrimChar(c: char) {
    c in TrimChars
  }

  const TrimChars: set<char> := {' ', '\t', '\n', '\r', 0 as char, 11 as char}

  /**
   * PHP empty() on a string: true for "" and for "0". Unset properties read
   * as null, which the model represents by "", so they are empty too.
   */
  predicate IsEmpty(s: string) {
    s == "" || s == "0"
  }

  /** ltrim(): drops leading trim characters; the rest of the string is kept as is. */
  function TrimLeft(s: string): (r: string)
    ensures |r| <= |s|
    ensures r == [] || !IsTrimChar(r[0])
  {
    if |s| > 0 && IsTrimChar(s[0]) then TrimLeft(s[1..]) else s
  }

  /** rtrim(): drops trailing trim characters; the rest of the string is kept as is. */
  function TrimRight(s: string): (r: string)
    ensures |r| <= |s| && r == s[..|r|]
    ensures forall i :: |r| <= i < |s| ==> IsTrimChar(s[i])
    ensures r == [] || !IsTrimChar(r[|r| - 1])
  {
    if |s| > 0 && IsTrimChar(s[|s| - 1]) then TrimRight(s[..|s| - 1]) else s
  }

  /** trim(): the string without its leading and trailing trim characters. */
  function Trim(s: string): (r: string)
    ensures |r| <= |s|
    ensures r == [] || (!IsTrimChar(r[0]) && !IsTrimChar(r[|r| - 1]))
  {
    TrimRight(TrimLeft(s))
  }

  /**
   * What trim() keeps: a slice of `s`, everything cut off before and after it
   * being a trim character (and, by Trim's contract, the slice neither starts
   * nor ends with one).
   */
  lemma TrimSlice(s: string)
    ensures exists i, j ::
              && 0 <= i <= j <= |s| && Trim(s) == s[i..j]
              && (forall k :: 0 <= k < i ==> IsTrimChar(s[k]))
              && (forall k :: j <= k < |s| ==> IsTrimChar(s[k]))
  {
    TrimLeftDrops(s);
    var left := TrimLeft(s);
    var r := TrimRight(left);
    var i := |s| - |left|;
    var j := i + |r|;
    assert r == s[i..j];
    forall k | j <= k < |s| ensures IsTrimChar(s[k]) {
      assert s[k] == left[k - i];
    }
  }

  lemma {:induction false} TrimLeftNoop(s: string)
    requires s == [] || !IsTrimChar(s[0])
    ensures TrimLeft(s) == s
  {
  }

  lemma {:induction false} TrimRightNoop(s: string)
    requires s == [] || !IsTrimChar(s[|s| - 1])
    ensures TrimRight(s) == s
  {
  }

  /** ltrim() removes only a prefix of trim characters and keeps the rest as is. */
  lemma {:induction false} TrimLeftDrops(s: string)
    ensures TrimLeft(s) == s[|s| - |TrimLeft(s)|..]
    ensures forall i :: 0 <= i < |s| - |TrimLeft(s)| ==> IsTrimChar(s[i])
  {
    if |s| > 0 && IsTrimChar(s[0]) {
      TrimLeftDrops(s[1..]);
    }
  }

  /** Trimming twice is trimming once, so a trimmed key is its own key. */
  lemma TrimIdempotent(s: string)
    ensures Trim(Trim(s)) == Trim(s)
  {
    var t := Trim(s);
    TrimLeftNoop(t);
    TrimRightNoop(t);
  }

  /** The number of occurrences of `c` in `s` (what preg_match_all counts for a one-character pattern). */
  function Occurrences(s: string, c: char): (n: nat)
    ensures n <= |s|
    ensures n == 0 <==> c !in s
  {
    if s == [] then 0 else (if s[0] == c then 1 else 0) + Occurrences(s[1..], c)
  }

  lemma {:induction false} OccurrencesAppend(s: string, t: string, c: char)
    ensures Occurrences(s + t, c) == Occurrences(s, c) + Occurrences(t, c)
  {
    if s != [] {
      assert (s + t)[1..] == s[1..] + t;
      OccurrencesAppend(s[1..], t, c);
    } else {
      assert s + t == t;
    }
  }

  /** explode(): the pieces of `s` between occurrences of `sep`; there is always at least one. */
  function Explode(s: string, sep: char): (parts: seq<string>)
    ensures |parts| >= 1
    ensures forall i :: 0 <= i < |parts| ==> sep !in parts[i]
    ensures |parts| == Occurrences(s, sep) + 1
  {
    if s == [] then [""]
    else
      var rest := Explode(s[1..], sep);
      if s[0] == sep then [""] + rest
      else [[s[0]] + rest[0]] + rest[1..]
  }

  /** implode(): the pieces joined, with `sep` between each two. */
  function Implode(parts: seq<string>, sep: char): string
    requires |parts| >= 1
  {
    if |parts| == 1 then parts[0] else parts[0] + [sep] + Implode(parts[1..], sep)
  }

  /** One step of explode(): how the first character extends the pieces of the rest. */
  lemma ExplodeCons(c: char, t: string, sep: char)
    ensures c == sep ==> Explode([c] + t, sep) == [""] + Explode(t, sep)
    ensures c != sep ==> Explode([c] + t, sep) == [[c] + Explode(t, sep)[0]] + Explode(t, sep)[1..]
  {
    assert ([c] + t)[1..] == t;
  }

  /** Joining the pieces of explode() with the same separator gives the string back. */
  lemma {:induction false} ImplodeExplode(s: string, sep: char)
    ensures Implode(Explode(s, sep), sep) == s
  {
    if s != [] {
      var c, t := s[0], s[1..];
      assert s == [c] + t;
      var rest := Explode(t, sep);
      ImplodeExplode(t, sep);
      ExplodeCons(c, t, sep);
      if c == sep {
        ImplodeCons("", rest, sep);
      } else {
        ImplodeHead(c, rest, sep);
      }
    }
  }

  lemma ImplodeCons(p: string, rest: seq<string>, sep: char)
    requires |rest| >= 1
    ensures Implode([p] + rest, sep) == p + [sep] + Implode(rest, sep)
  {
    assert ([p] + rest)[1..] == rest;
  }

  lemma ImplodeHead(c: char, rest: seq<string>, sep: char)
    requires |rest| >= 1
    ensures Implode([[c] + rest[0]] + rest[1..], sep) == [c] + Implode(rest, sep)
  {
    var parts := [[c] + rest[0]] + rest[1..];
    if |rest| > 1 {
      assert parts[1..] == rest[1..];
    }
  }

  /** Splitting an implode()d list whose pieces do not contain the separator gives the list back. */
  lemma {:induction false} ExplodeImplode(parts: seq<string>, sep: char)
    requires |parts| >= 1
    requires forall i :: 0 <= i < |parts| ==> sep !in parts[i]
    ensures Explode(Implode(parts, sep), sep) == parts
  {
    if |parts| == 1 {
      ExplodeNoSep(parts[0], sep);
    } else {
      ExplodeImplode(parts[1..], sep);
      ExplodeConcat(parts[0], Implode(parts[1..], sep), sep);
      assert [parts[0]] + parts[1..] == parts;
    }
  }

  lemma {:induction false} ExplodeNoSep(s: string, sep: char)
    requires sep !in s
    ensures Explode(s, sep) == [s]
  {
    if s != [] {
      ExplodeNoSep(s[1..], sep);
      assert [s[0]] + s[1..] == s;
    }
  }

  lemma {:induction false} ExplodeConcat(a: string, b: string, sep: char)
    requires sep !in a
    ensures Explode(a + [sep] + b, sep) == [a] + Explode(b, sep)
  {
    if a == [] {
      assert a + [sep] + b == [sep] + b;
      ExplodeCons(sep, b, sep);
    } else {
      var t := a[1..] + [sep] + b;
      assert a + [sep] + b == [a[0]] + t;
      ExplodeCons(a[0], t, sep);
      ExplodeConcat(a[1..], b, sep);
      assert [a[0]] + a[1..] == a;
    }
  }

  /** implode() of pieces without the separator has one separator fewer than pieces. */
  lemma OccurrencesImplodeSep(parts: seq<string>, sep: char)
    requires |parts| >= 1
    requires forall i :: 0 <= i < |parts| ==> sep !in parts[i]
    ensures Occurrences(Implode(parts, sep), sep) == |parts| - 1
  {
    ExplodeImplode(parts, sep);
  }

  /** The total number of occurrences of `c` in the pieces. */
  function SumOccurrences(parts: seq<string>, c: char): nat {
    if parts == [] then 0 else Occurrences(parts[0], c) + SumOccurrences(parts[1..], c)
  }

  /** Any other character occurs in an implode() exactly as often as in its pieces together. */
  lemma {:induction false} OccurrencesImplodeOther(parts: seq<string>, sep: char, c: char)
    requires |parts| >= 1 && c != sep
    ensures Occurrences(Implode(parts, sep), c) == SumOccurrences(parts, c)
  {
    if |parts| > 1 {
      OccurrencesImplodeOther(parts[1..], sep, c);
      OccurrencesAppend(parts[0] + [sep], Implode(parts[1..], sep), c);
      OccurrencesAppend(parts[0], [sep], c);
      assert Occurrences([sep], c) == 0;
    } else {
      assert parts[1..] == [];
    }
  }

  /** A character that is neither the separator nor in any piece is not in the implode(). */
  lemma {:induction false} ImplodeAbsent(parts: seq<string>, sep: char, c: char)
    requires |parts| >= 1 && c != sep
    requires forall i :: 0 <= i < |parts| ==> c !in parts[i]
    ensures c !in Implode(parts, sep)
  {
    if |parts| > 1 {
      ImplodeAbsent(parts[1..], sep, c);
    }
  }

  /** strpos() finding the needle at position 0: the needle starts the string. */
  predicate StartsWith(str: string, needle: string) {
    needle <= str
  }

  /** Applies trim() to every element, as `array_map('trim', ...)` does. */
  function TrimAll(parts: seq<string>): (r: seq<string>)
    ensures |r| == |parts|
    ensures forall i :: 0 <= i < |parts| ==> r[i] == Trim(parts[i])
  {
    if parts == [] then [] else [Trim(parts[0])] + TrimAll(parts[1..])
  }
}
