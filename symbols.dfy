/*
 * Parsing of a comma-separated symbol list.
 *
 * The producer builds its list as `[s.strip() for s in symbols.split(",") if s.strip()]`
 * and the worker as `Split(',', RemoveEmptyEntries | TrimEntries)`: both cut the text at
 * every comma, strip surrounding whitespace from each segment and drop the segments that
 * strip to nothing. `SymbolList` is that one function.
 */
module Symbols {

  /** The whitespace characters both runtimes strip (ASCII only). */
  predicate IsSpace(c: char) {
    c == ' ' || c == '\t' || c == '\n' || c == '\r' || c == '\U{B}' || c == '\U{C}'
  }

  predicate AllSpace(s: string) {
    forall i :: 0 <= i < |s| ==> IsSpace(s[i])
  }

  /** The number of whitespace characters `s` starts with: all of them are whitespace and
      the next one, if any, is not. */
  function LeadingSpace(s: string): (n: nat)
    ensures n <= |s|
    ensures forall i :: 0 <= i < n ==> IsSpace(s[i])
    ensures n < |s| ==> !IsSpace(s[n])
  {
    if s != [] && IsSpace(s[0]) then 1 + LeadingSpace(s[1..]) else 0
  }

  /** The number of whitespace characters `s` ends with: all of them are whitespace and the
      one before them, if any, is not. */
  function TrailingSpace(s: string): (n: nat)
    ensures n <= |s|
    ensures forall i :: |s| - n <= i < |s| ==> IsSpace(s[i])
    ensures n < |s| ==> !IsSpace(s[|s| - n - 1])
  {
    if s != [] && IsSpace(s[|s| - 1]) then 1 + TrailingSpace(s[..|s| - 1]) else 0
  }

  function TrimStart(s: string): string {
    s[LeadingSpace(s)..]
  }

  function TrimEnd(s: string): string {
    s[..|s| - TrailingSpace(s)]
  }

  /** Python's `str.strip()` / .NET's `Trim()` without arguments. */
  function Strip(s: string): string {
    TrimEnd(TrimStart(s))
  }

  /** `Strip(s)` is the infix of `s` left after cutting whitespace at both ends, and it
      neither starts nor ends with whitespace. */
  lemma StripIsInfix(s: string)
    ensures var t := Strip(s);
      exists i, j :: 0 <= i <= j <= |s| && t == s[i..j] && AllSpace(s[..i]) && AllSpace(s[j..])
    ensures Strip(s) != [] ==> !IsSpace(Strip(s)[0]) && !IsSpace(Strip(s)[|Strip(s)| - 1])
  {
    var i := LeadingSpace(s);
    var u := s[i..];
    var n := TrailingSpace(u);
    var j := i + |u| - n;
    var t := u[..|u| - n];
    assert t == s[i..j];
    forall k | j <= k < |s|
      ensures IsSpace(s[k])
    {
      assert s[k] == u[k - i];
    }
    assert AllSpace(s[..i]) && AllSpace(s[j..]);
    if t != [] {
      assert t[0] == s[i];
      assert t[|t| - 1] == u[|u| - n - 1];
    }
  }

  /** A string strips to nothing exactly when it is whitespace only. */
  lemma StripEmptyIff(s: string)
    ensures Strip(s) == [] <==> AllSpace(s)
  {
    if AllSpace(s) {
      assert LeadingSpace(s) == |s|;
    }
  }

  /** Cuts `s` at every occurrence of `sep`, as Python's `str.split(sep)`. */
  function Split(s: string, sep: char): (parts: seq<string>)
    ensures |parts| >= 1
    ensures forall k :: 0 <= k < |parts| ==> sep !in parts[k]
  {
    if s == [] then [[]]
    else
      var rest := Split(s[1..], sep);
      if s[0] == sep then [[]] + rest
      else [[s[0]] + rest[0]] + rest[1..]
  }

  /** Puts the segments back together, `sep` between neighbours (Python's `sep.join`). */
  function Join(parts: seq<string>, sep: char): string {
    if parts == [] then []
    else if |parts| == 1 then parts[0]
    else parts[0] + [sep] + Join(parts[1..], sep)
  }

  /** Splitting loses nothing: joining the segments gives back the input. */
  lemma {:induction false} JoinSplit(s: string, sep: char)
    ensures Join(Split(s, sep), sep) == s
  {
    if s != [] {
      var rest := Split(s[1..], sep);
      JoinSplit(s[1..], sep);
      if s[0] != sep {
        var head := [s[0]] + rest[0];
        if |rest| == 1 {
          assert Split(s, sep) == [head];
        } else {
          assert Split(s, sep) == [head] + rest[1..];
          assert Join(rest, sep) == rest[0] + [sep] + Join(rest[1..], sep);
          assert s == [s[0]] + s[1..];
        }
      } else {
        assert Split(s, sep) == [[]] + rest;
        assert s == [sep] + s[1..];
      }
    }
  }

  /** A string without the separator is a single segment. */
  lemma {:induction false} SplitNoSep(s: string, sep: char)
    requires sep !in s
    ensures Split(s, sep) == [s]
  {
    if s != [] {
      SplitNoSep(s[1..], sep);
      assert [s[0]] + s[1..] == s;
    }
  }

  /** The segments of `a + sep + b` are those of `a` followed by those of `b`. */
  lemma {:induction false} SplitAtSep(a: string, b: string, sep: char)
    ensures Split(a + [sep] + b, sep) == Split(a, sep) + Split(b, sep)
  {
    var s := a + [sep] + b;
    if a == [] {
      assert s[1..] == b;
    } else {
      assert s[1..] == a[1..] + [sep] + b;
      SplitAtSep(a[1..], b, sep);
    }
  }

  /** Segments that do not contain the separator are recovered by splitting their join. */
  lemma {:induction false} SplitJoin(parts: seq<string>, sep: char)
    requires |parts| >= 1
    requires forall k :: 0 <= k < |parts| ==> sep !in parts[k]
    ensures Split(Join(parts, sep), sep) == parts
  {
    if |parts| == 1 {
      SplitNoSep(parts[0], sep);
    } else {
      SplitJoin(parts[1..], sep);
      SplitNoSep(parts[0], sep);
      SplitAtSep(parts[0], Join(parts[1..], sep), sep);
      assert parts == [parts[0]] + parts[1..];
    }
  }

  /** A kept entry: not empty, and neither first nor last character is whitespace. */
  predicate IsTrimmedWord(t: string) {
    t != [] && !IsSpace(t[0]) && !IsSpace(t[|t| - 1])
  }

  /** What one segment contributes: its stripped text, unless that is empty. */
  function Kept(part: string): (r: seq<string>)
    ensures |r| <= 1
    ensures forall k :: 0 <= k < |r| ==> IsTrimmedWord(r[k])
  {
    StripIsInfix(part);
    if Strip(part) == [] then [] else [Strip(part)]
  }

  /** Strips every segment and keeps the ones that are not empty afterwards. */
  function Clean(parts: seq<string>): (r: seq<string>)
    ensures |r| <= |parts|
    ensures forall k :: 0 <= k < |r| ==> IsTrimmedWord(r[k])
  {
    if parts == [] then [] else Kept(parts[0]) + Clean(parts[1..])
  }

  lemma {:induction false} CleanAppend(a: seq<string>, b: seq<string>)
    ensures Clean(a + b) == Clean(a) + Clean(b)
  {
    if a == [] {
      assert a + b == b;
    } else {
      var ab := a + b;
      assert ab[0] == a[0] && ab[1..] == a[1..] + b;
      CleanAppend(a[1..], b);
      calc {
        Clean(ab);
        Kept(a[0]) + Clean(a[1..] + b);
        Kept(a[0]) + (Clean(a[1..]) + Clean(b));
        (Kept(a[0]) + Clean(a[1..])) + Clean(b);
      }
    }
  }

  /** The symbols named by a comma-separated list. */
  function SymbolList(csv: string): seq<string> {
    Clean(Split(csv, ','))
  }

  /** No entry is empty or whitespace only, and none has surrounding whitespace. */
  lemma SymbolListEntries(csv: string)
    ensures forall k :: 0 <= k < |SymbolList(csv)| ==>
      var t := SymbolList(csv)[k];
      IsTrimmedWord(t) && !AllSpace(t)
  {
    var r := SymbolList(csv);
    forall k | 0 <= k < |r|
      ensures !AllSpace(r[k])
    {
      assert !IsSpace(r[k][0]);
    }
  }

  /** A list without commas names its stripped self, or nothing if it is blank. */
  lemma SymbolListOneSegment(csv: string)
    requires ',' !in csv
    ensures SymbolList(csv) == if AllSpace(csv) then [] else [Strip(csv)]
  {
    SplitNoSep(csv, ',');
    StripEmptyIff(csv);
  }

  /** Order: the symbols of `a,b` are those of `a` followed by those of `b`. */
  lemma SymbolListAtComma(a: string, b: string)
    ensures SymbolList(a + [','] + b) == SymbolList(a) + SymbolList(b)
  {
    SplitAtSep(a, b, ',');
    CleanAppend(Split(a, ','), Split(b, ','));
  }

  /** The list is empty exactly when the input holds only commas and whitespace. */
  predicate OnlyCommasAndSpace(csv: string) {
    forall i :: 0 <= i < |csv| ==> csv[i] == ',' || IsSpace(csv[i])
  }

  lemma OnlyCommasAndSpaceAt(csv: string, i: nat)
    requires i < |csv| && csv[i] == ','
    ensures OnlyCommasAndSpace(csv) <==>
      OnlyCommasAndSpace(csv[..i]) && OnlyCommasAndSpace(csv[i + 1..])
  {
    var a, b := csv[..i], csv[i + 1..];
    if !OnlyCommasAndSpace(csv) {
      var j :| 0 <= j < |csv| && !(csv[j] == ',' || IsSpace(csv[j]));
      if j < i {
        assert a[j] == csv[j];
      } else {
        assert b[j - i - 1] == csv[j];
      }
    }
  }

  lemma {:induction false} SymbolListEmptyIff(csv: string)
    ensures SymbolList(csv) == [] <==> OnlyCommasAndSpace(csv)
    decreases |csv|
  {
    if ',' !in csv {
      SymbolListOneSegment(csv);
    } else {
      var i :| 0 <= i < |csv| && csv[i] == ',';
      var a, b := csv[..i], csv[i + 1..];
      assert csv == a + [','] + b;
      SymbolListAtComma(a, b);
      SymbolListEmptyIff(a);
      SymbolListEmptyIff(b);
      OnlyCommasAndSpaceAt(csv, i);
    }
  }
}
