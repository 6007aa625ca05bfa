/**
  Character-level string helpers shared by the query-string reader and the
  validation-rule parser: splitting at a separator character and
  cutting at the first occurrence of a character.
 */
module Text {

  /** Splits `s` at every occurrence of `sep`, as JavaScript's `split` does
      with a one-character separator: always at least one part, none of which
      contains `sep`. */
  function Split(s: string, sep: char): (parts: seq<string>)
    ensures |parts| >= 1
    ensures forall i :: 0 <= i < |parts| ==> sep !in parts[i]
    decreases |s|
  {
    if |s| == 0 then [""]
    else if s[0] == sep then [""] + Split(s[1..], sep)
    else
      var rest := Split(s[1..], sep);
      [[s[0]] + rest[0]] + rest[1..]
  }

  /** Cuts `s` at the first `sep`: the part before it and the part after it,
      or all of `s` and an empty rest when `sep` does not occur. */
  function SplitFirst(s: string, sep: char): (cut: (string, string))
    ensures sep !in cut.0
    ensures sep in s ==> s == cut.0 + [sep] + cut.1
    ensures sep !in s ==> cut == (s, "")
    decreases |s|
  {
    if |s| == 0 then ("", "")
    else if s[0] == sep then ("", s[1..])
    else
      var rest := SplitFirst(s[1..], sep);
      assert s == [s[0]] + s[1..];
      ([s[0]] + rest.0, rest.1)
  }

  /** A string without the separator is one part. */
  lemma {:induction false} SplitNoSep(s: string, sep: char)
    requires sep !in s
    ensures Split(s, sep) == [s]
    decreases |s|
  {
    if |s| > 0 {
      SplitNoSep(s[1..], sep);
      assert s == [s[0]] + s[1..];
    }
  }

  /** Splitting a separator-free prefix followed by a separator yields the
      prefix, then the parts of the remainder. */
  lemma {:induction false} SplitCons(a: string, b: string, sep: char)
    requires sep !in a
    ensures Split(a + [sep] + b, sep) == [a] + Split(b, sep)
    decreases |a|
  {
    var s := a + [sep] + b;
    if |a| == 0 {
      assert s == [sep] + b;
      assert s[1..] == b;
    } else {
      assert s[1..] == a[1..] + [sep] + b;
      SplitCons(a[1..], b, sep);
      assert [a[0]] + a[1..] == a;
    }
  }

  /** Cutting at the first separator after a separator-free prefix gives
      back the prefix and the whole remainder. */
  lemma {:induction false} SplitFirstCons(a: string, b: string, sep: char)
    requires sep !in a
    ensures SplitFirst(a + [sep] + b, sep) == (a, b)
    decreases |a|
  {
    var s := a + [sep] + b;
    if |a| == 0 {
      assert s == [sep] + b;
    } else {
      assert s[1..] == a[1..] + [sep] + b;
      SplitFirstCons(a[1..], b, sep);
      assert [a[0]] + a[1..] == a;
    }
  }
}
