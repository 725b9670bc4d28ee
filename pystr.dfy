/** The parts of Python's `str` the pipeline relies on: `split` with an
    explicit one-character separator, its inverse `join`, `lower`,
    `endswith`, and the `<` ordering of strings. */
module PyStr {

  /** Number of occurrences of `c` in `s`. */
  function Occurrences(s: string, c: char): (r: nat)
    ensures r == 0 <==> c !in s
  {
    if s == [] then 0 else (if s[0] == c then 1 else 0) + Occurrences(s[1..], c)
  }

  /** `s.split(sep)`: every occurrence of `sep` separates two fields, empty
      fields are kept and runs of separators are never collapsed. */
  function Split(s: string, sep: char): (r: seq<string>)
    ensures |r| >= 1
  {
    if s == [] then [""]
    else
      var rest := Split(s[1..], sep);
      if s[0] == sep then [""] + rest
      else [[s[0]] + rest[0]] + rest[1..]
  }

  /** A split has one field more than the text has separators. */
  lemma {:induction false} SplitCount(s: string, sep: char)
    ensures |Split(s, sep)| == Occurrences(s, sep) + 1
  {
    if s != [] {
      SplitCount(s[1..], sep);
    }
  }

  /** No field contains the separator. */
  lemma {:induction false} SplitFieldsFree(s: string, sep: char, i: nat)
    requires i < |Split(s, sep)|
    ensures sep !in Split(s, sep)[i]
  {
    if s != [] {
      var rest := Split(s[1..], sep);
      if s[0] == sep {
        if i > 0 { SplitFieldsFree(s[1..], sep, i - 1); }
      } else {
        SplitFieldsFree(s[1..], sep, i);
      }
    }
  }

  /** Every character of a field comes from the text. */
  lemma {:induction false} SplitFieldsFromText(s: string, sep: char, i: nat, c: char)
    requires i < |Split(s, sep)| && c in Split(s, sep)[i]
    ensures c in s
  {
    if s != [] {
      var rest := Split(s[1..], sep);
      if s[0] == sep {
        if i > 0 { SplitFieldsFromText(s[1..], sep, i - 1, c); }
      } else if i == 0 {
        if c != s[0] { SplitFieldsFromText(s[1..], sep, 0, c); }
      } else {
        SplitFieldsFromText(s[1..], sep, i, c);
      }
    }
  }

  /** `sep.join(parts)`. */
  function Join(parts: seq<string>, sep: char): string
    requires |parts| >= 1
  {
    if |parts| == 1 then parts[0] else parts[0] + [sep] + Join(parts[1..], sep)
  }

  /** Joining the fields of a split gives back the text. */
  lemma {:induction false} JoinSplit(s: string, sep: char)
    ensures Join(Split(s, sep), sep) == s
  {
    if s != [] {
      var rest := Split(s[1..], sep);
      JoinSplit(s[1..], sep);
      if s[0] == sep {
        JoinEmptyFirst(rest, sep);
      } else {
        JoinConsFirst(s[0], rest, sep);
      }
      assert s == [s[0]] + s[1..];
    }
  }

  /** An empty first field contributes only its separator. */
  lemma JoinEmptyFirst(parts: seq<string>, sep: char)
    requires |parts| >= 1
    ensures Join([""] + parts, sep) == [sep] + Join(parts, sep)
  {
    assert ([""] + parts)[1..] == parts;
  }

  /** A character put in front of the first field comes first in the join. */
  lemma JoinConsFirst(c: char, parts: seq<string>, sep: char)
    requires |parts| >= 1
    ensures Join([[c] + parts[0]] + parts[1..], sep) == [c] + Join(parts, sep)
  {
    var q := [[c] + parts[0]] + parts[1..];
    if |parts| > 1 {
      assert q[1..] == parts[1..];
      assert Join(parts, sep) == parts[0] + [sep] + Join(parts[1..], sep);
      assert [c] + parts[0] + [sep] + Join(parts[1..], sep) == [c] + (parts[0] + [sep] + Join(parts[1..], sep));
    }
  }

  /** Splitting a join of separator-free fields gives back the fields. */
  lemma {:induction false} SplitJoin(parts: seq<string>, sep: char)
    requires |parts| >= 1
    requires forall i :: 0 <= i < |parts| ==> sep !in parts[i]
    ensures Split(Join(parts, sep), sep) == parts
  {
    assert forall i :: 1 <= i < |parts| ==> parts[1..][i - 1] == parts[i];
    if |parts| == 1 {
      SplitWithoutSeparator(parts[0], sep);
    } else {
      SplitJoin(parts[1..], sep);
      var tail := Join(parts[1..], sep);
      SplitAfterSeparatorFree(parts[0], [sep] + tail, sep);
      assert ([sep] + tail)[1..] == tail;
      var st := Split([sep] + tail, sep);
      assert st == [""] + parts[1..];
      assert st[0] == "" && st[1..] == parts[1..];
      assert parts[0] + [sep] + tail == parts[0] + ([sep] + tail);
      assert Join(parts, sep) == parts[0] + ([sep] + tail);
      assert parts[0] + "" == parts[0];
      assert [parts[0]] + parts[1..] == parts;
    }
  }

  /** A text without the separator is a single field. */
  lemma {:induction false} SplitWithoutSeparator(s: string, sep: char)
    requires sep !in s
    ensures Split(s, sep) == [s]
  {
    SplitAfterSeparatorFree(s, [], sep);
    assert s + [] == s;
  }

  /** A separator-free prefix `x` ends up at the front of the first field. */
  lemma {:induction false} SplitAfterSeparatorFree(x: string, y: string, sep: char)
    requires sep !in x
    ensures Split(x + y, sep) == [x + Split(y, sep)[0]] + Split(y, sep)[1..]
  {
    var sy := Split(y, sep);
    if x == [] {
      assert x + y == y;
      assert x + sy[0] == sy[0];
      assert [sy[0]] + sy[1..] == sy;
    } else {
      SplitAfterSeparatorFree(x[1..], y, sep);
      var rest := Split(x[1..] + y, sep);
      assert x == [x[0]] + x[1..];
      SplitCons(x[0], x[1..] + y, sep);
      assert [x[0]] + (x[1..] + y) == ([x[0]] + x[1..]) + y;
      assert [x[0]] + (x[1..] + sy[0]) == ([x[0]] + x[1..]) + sy[0];
    }
  }

  /** One non-separator character joins the first field. */
  lemma SplitCons(c: char, z: string, sep: char)
    requires c != sep
    ensures Split([c] + z, sep) == [[c] + Split(z, sep)[0]] + Split(z, sep)[1..]
  {
    assert ([c] + z)[1..] == z;
  }

  /** A separator right after a separator-free `x` closes the first field. */
  lemma SplitAtSeparator(x: string, y: string, sep: char)
    requires sep !in x
    ensures Split(x + [sep] + y, sep) == [x] + Split(y, sep)
  {
    SplitAfterSeparatorFree(x, [sep] + y, sep);
    assert x + [sep] + y == x + ([sep] + y);
    assert ([sep] + y)[1..] == y;
    var sy := Split([sep] + y, sep);
    assert sy == [""] + Split(y, sep);
    assert x + sy[0] == x;
  }

  /** The first field of a text that is empty or starts with the separator is empty. */
  lemma FirstFieldEmpty(y: string, sep: char)
    requires y == [] || y[0] == sep
    ensures Split(y, sep)[0] == ""
  {
    if y != [] {
      assert Split(y, sep) == [""] + Split(y[1..], sep);
    }
  }

  /** ASCII `str.lower()` of one character. */
  function LowerChar(c: char): char
  {
    if 'A' <= c <= 'Z' then (c as int + 32) as char else c
  }

  /** `s.lower()`, for the ASCII letters. */
  function Lower(s: string): (r: string)
    ensures |r| == |s|
    ensures forall i :: 0 <= i < |s| ==> r[i] == LowerChar(s[i])
  {
    seq(|s|, i requires 0 <= i < |s| => LowerChar(s[i]))
  }

  /** `s.endswith(suffix)`. */
  predicate EndsWith(s: string, suffix: string)
  {
    |suffix| <= |s| && s[|s| - |suffix|..] == suffix
  }

  /** Python's `a < b` on strings: lexicographic by code point, a proper
      prefix coming first. */
  predicate StrLt(a: string, b: string)
  {
    if a == [] then b != []
    else if b == [] then false
    else if a[0] != b[0] then a[0] < b[0]
    else StrLt(a[1..], b[1..])
  }

  lemma {:induction false} StrLtIrreflexive(a: string)
    ensures !StrLt(a, a)
  {
    if a != [] { StrLtIrreflexive(a[1..]); }
  }

  lemma {:induction false} StrLtTransitive(a: string, b: string, c: string)
    requires StrLt(a, b) && StrLt(b, c)
    ensures StrLt(a, c)
  {
    if a != [] && b != [] && c != [] && a[0] == b[0] && b[0] == c[0] {
      StrLtTransitive(a[1..], b[1..], c[1..]);
    }
  }

  lemma {:induction false} StrLtTotal(a: string, b: string)
    ensures a == b || StrLt(a, b) || StrLt(b, a)
  {
    if a != [] && b != [] && a[0] == b[0] {
      StrLtTotal(a[1..], b[1..]);
      if a[1..] == b[1..] {
        assert a == [a[0]] + a[1..] && b == [b[0]] + b[1..];
      }
    }
  }

  /** Comparing `x + s` with `y + t` for equally long `x` and `y` decides on
      `x` and `y` first, and on `s` and `t` only when `x == y`. */
  lemma {:induction false} StrLtEqualLengthPrefix(x: string, y: string, s: string, t: string)
    requires |x| == |y|
    ensures StrLt(x + s, y + t) <==> StrLt(x, y) || (x == y && StrLt(s, t))
  {
    if x != [] {
      assert (x + s)[1..] == x[1..] + s;
      assert (y + t)[1..] == y[1..] + t;
      StrLtEqualLengthPrefix(x[1..], y[1..], s, t);
      if x[0] == y[0] {
        assert x == y <==> x[1..] == y[1..] by {
          assert x == [x[0]] + x[1..] && y == [y[0]] + y[1..];
        }
      }
    } else {
      assert x + s == s && y + t == t;
    }
  }
}
