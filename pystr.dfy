/**
 * The handful of Python string and path operations the configuration
 * engine relies on: `str.split` with a one-character separator, `str.join`,
 * ASCII `str.lower`, a stable sort keyed on the lower-cased string,
 * decimal rendering of a count, and two-argument `os.path.join`.
 */
module PyStr {

  /** Python's `s.split(sep)` for a one-character separator: never empty,
      and empty segments (leading, trailing or doubled separators) are kept. */
  function Split(s: string, sep: char): (parts: seq<string>)
    ensures |parts| >= 1
    ensures forall i :: 0 <= i < |parts| ==> sep !in parts[i]
    decreases |s|
  {
    if |s| == 0 then [""]
    else
      var rest := Split(s[1..], sep);
      if s[0] == sep then [""] + rest
      else [[s[0]] + rest[0]] + rest[1..]
  }

  /** Python's `sep.join(parts)`. */
  function Join(parts: seq<string>, sep: string): string
    decreases |parts|
  {
    if |parts| == 0 then ""
    else if |parts| == 1 then parts[0]
    else parts[0] + sep + Join(parts[1..], sep)
  }

  /** Joining the segments back with the separator gives the original string. */
  lemma {:induction false} JoinSplit(s: string, sep: char)
    ensures Join(Split(s, sep), [sep]) == s
    decreases |s|
  {
    if |s| > 0 {
      var rest := Split(s[1..], sep);
      JoinSplit(s[1..], sep);
      if s[0] == sep {
        assert ([""] + rest)[1..] == rest;
      } else if |rest| > 1 {
        var parts := [[s[0]] + rest[0]] + rest[1..];
        assert parts[1..] == rest[1..];
        assert Join(rest, [sep]) == rest[0] + [sep] + Join(rest[1..], [sep]);
      }
    }
  }

  /** A string holding no separator splits into itself alone. */
  lemma {:induction false} SplitNoSeparator(s: string, sep: char)
    requires sep !in s
    ensures Split(s, sep) == [s]
    decreases |s|
  {
    if |s| > 0 {
      assert sep !in s[1..] by {
        forall k | 0 <= k < |s[1..]| ensures s[1..][k] != sep {
          assert s[1..][k] == s[k + 1];
        }
      }
      SplitNoSeparator(s[1..], sep);
      assert [s[0]] + s[1..] == s;
    }
  }

  /** Splitting a separator-joined list gives back the list. */
  lemma {:induction false} SplitJoin(parts: seq<string>, sep: char)
    requires |parts| >= 1
    requires forall i :: 0 <= i < |parts| ==> sep !in parts[i]
    ensures Split(Join(parts, [sep]), sep) == parts
    decreases |parts|
  {
    if |parts| == 1 {
      SplitNoSeparator(parts[0], sep);
    } else {
      SplitJoin(parts[1..], sep);
      SplitPrefix(parts[0], Join(parts[1..], [sep]), sep);
      assert [parts[0]] + parts[1..] == parts;
    }
  }

  /** A separator-free head followed by a separator splits off as the first segment. */
  lemma {:induction false} SplitPrefix(a: string, b: string, sep: char)
    requires sep !in a
    ensures Split(a + [sep] + b, sep) == [a] + Split(b, sep)
    decreases |a|
  {
    if |a| == 0 {
      assert a + [sep] + b == [sep] + b;
      assert ([sep] + b)[1..] == b;
    } else {
      assert sep !in a[1..] by {
        forall k | 0 <= k < |a[1..]| ensures a[1..][k] != sep {
          assert a[1..][k] == a[k + 1];
        }
      }
      SplitPrefix(a[1..], b, sep);
      assert (a + [sep] + b)[1..] == a[1..] + [sep] + b;
      assert [a[0]] + a[1..] == a;
    }
  }

  /** Splitting at one separator splits the two sides independently:
      Python's `(x + sep + y).split(sep) == x.split(sep) + y.split(sep)`. */
  lemma SplitConcat(x: string, y: string, sep: char)
    ensures Split(x + [sep] + y, sep) == Split(x, sep) + Split(y, sep)
  {
    var p, q := Split(x, sep), Split(y, sep);
    JoinSplit(x, sep);
    JoinSplit(y, sep);
    JoinConcat(p, q, [sep]);
    SplitJoin(p + q, sep);
  }

  /** Joining two non-empty lists is joining each and putting the separator between. */
  lemma {:induction false} JoinConcat(p: seq<string>, q: seq<string>, sep: string)
    requires |p| >= 1 && |q| >= 1
    ensures Join(p + q, sep) == Join(p, sep) + sep + Join(q, sep)
    decreases |p|
  {
    if |p| > 1 {
      JoinConcat(p[1..], q, sep);
      assert (p + q)[1..] == p[1..] + q;
    } else {
      assert (p + q)[1..] == q;
    }
  }

  /** ASCII lower-casing of one character. */
  function LowerChar(c: char): char
  {
    if 'A' <= c <= 'Z' then (c as int + 32) as char else c
  }

  /** `s.lower()`, restricted to ASCII letters. */
  function Lower(s: string): (r: string)
    ensures |r| == |s|
    ensures forall i :: 0 <= i < |s| ==> r[i] == LowerChar(s[i])
  {
    seq(|s|, i requires 0 <= i < |s| => LowerChar(s[i]))
  }

  /** Python's `a <= b` on strings: code-point lexicographic order, a prefix first. */
  predicate LexLe(a: string, b: string)
    decreases |a|
  {
    |a| == 0 || (|b| > 0 && (a[0] < b[0] || (a[0] == b[0] && LexLe(a[1..], b[1..]))))
  }

  lemma {:induction false} LexTotal(a: string, b: string)
    ensures LexLe(a, b) || LexLe(b, a)
    decreases |a|
  {
    if |a| > 0 && |b| > 0 && a[0] == b[0] {
      LexTotal(a[1..], b[1..]);
    }
  }

  /** The order `sorted(..., key=lambda s: s.lower())` uses. */
  predicate KeyLe(a: string, b: string)
  {
    LexLe(Lower(a), Lower(b))
  }

  predicate SortedByLower(s: seq<string>)
  {
    forall i :: 0 < i < |s| ==> KeyLe(s[i - 1], s[i])
  }

  /** Inserts `x` before the first element whose key is not smaller, which keeps the sort stable. */
  function Insert(x: string, s: seq<string>): (r: seq<string>)
    requires SortedByLower(s)
    ensures multiset(r) == multiset(s) + multiset{x}
    ensures |r| == |s| + 1
    ensures r[0] == x || (|s| > 0 && r[0] == s[0])
    ensures SortedByLower(r)
    decreases |s|
  {
    if |s| == 0 then [x]
    else if KeyLe(x, s[0]) then [x] + s
    else
      LexTotal(Lower(x), Lower(s[0]));
      assert SortedByLower(s[1..]) by {
        forall i | 0 < i < |s[1..]| ensures KeyLe(s[1..][i - 1], s[1..][i]) {
          assert s[1..][i - 1] == s[i] && s[1..][i] == s[i + 1];
        }
      }
      var t := Insert(x, s[1..]);
      assert s == [s[0]] + s[1..];
      [s[0]] + t
  }

  /** Python's `sorted(xs, key=lambda s: s.lower())` on ASCII names. */
  function SortByLower(xs: seq<string>): (r: seq<string>)
    ensures multiset(r) == multiset(xs)
    ensures SortedByLower(r)
    decreases |xs|
  {
    if |xs| == 0 then []
    else
      assert xs == [xs[0]] + xs[1..];
      Insert(xs[0], SortByLower(xs[1..]))
  }

  function DigitChar(d: nat): char
    requires d < 10
  {
    ('0' as int + d) as char
  }

  /** `str(n)` for a natural number. */
  function NatToString(n: nat): (r: string)
    ensures |r| >= 1
    decreases n
  {
    if n < 10 then [DigitChar(n)] else NatToString(n / 10) + [DigitChar(n % 10)]
  }

  predicate IsDigits(s: string)
  {
    forall i :: 0 <= i < |s| ==> '0' <= s[i] <= '9'
  }

  /** Python's `int(s)` on a string of decimal digits. */
  function DecimalValue(s: string): nat
    requires IsDigits(s)
    decreases |s|
  {
    if |s| == 0 then 0
    else DecimalValue(s[..|s| - 1]) * 10 + (s[|s| - 1] as int - '0' as int)
  }

  /** `str(n)` is the decimal numeral of `n`: digits only, no leading zero,
      and reading it back gives `n`. */
  lemma {:induction false} NatToStringValue(n: nat)
    ensures IsDigits(NatToString(n))
    ensures DecimalValue(NatToString(n)) == n
    ensures n > 0 ==> NatToString(n)[0] != '0'
    decreases n
  {
    if n >= 10 {
      NatToStringValue(n / 10);
      var s := NatToString(n / 10);
      var t := s + [DigitChar(n % 10)];
      assert NatToString(n) == t;
      assert t[..|s|] == s;
      assert t[0] == s[0];
    }
  }

  /** Two-argument `os.path.join` with directory separator `sep`: an absolute
      second part replaces the first; otherwise a separator is inserted
      unless the first part is empty or already ends with one. */
  function PathJoin(a: string, b: string, sep: char): string
  {
    if |b| > 0 && b[0] == sep then b
    else if |a| == 0 || a[|a| - 1] == sep then a + b
    else a + [sep] + b
  }

  /** `os.path.join(a, b)` by components: an absolute `b` or an empty `a`
      gives `b`; otherwise the components of `a`, less the empty one that a
      trailing separator leaves, followed by the components of `b`. */
  lemma PathJoinComponents(a: string, b: string, sep: char)
    ensures (|b| > 0 && b[0] == sep) || |a| == 0 ==> PathJoin(a, b, sep) == b
    ensures |a| > 0 && !(|b| > 0 && b[0] == sep) ==>
              Split(PathJoin(a, b, sep), sep) == DirParts(a, sep) + Split(b, sep)
  {
    if |a| > 0 && !(|b| > 0 && b[0] == sep) {
      if a[|a| - 1] == sep {
        PathJoinTrailing(a, b, sep);
      } else {
        assert PathJoin(a, b, sep) == a + [sep] + b;
        SplitConcat(a, b, sep);
      }
    }
  }

  /** The components of a directory, less the empty one that a trailing
      separator leaves. */
  function DirParts(a: string, sep: char): seq<string>
    requires |a| > 0
  {
    var parts := Split(a, sep);
    if a[|a| - 1] == sep then parts[..|parts| - 1] else parts
  }

  lemma PathJoinTrailing(a: string, b: string, sep: char)
    requires |a| > 0 && a[|a| - 1] == sep
    requires |b| == 0 || b[0] != sep
    ensures Split(PathJoin(a, b, sep), sep) == DirParts(a, sep) + Split(b, sep)
  {
    var a0 := a[..|a| - 1];
    assert a == a0 + [sep];
    SplitTrailing(a0, sep);
    var parts := Split(a, sep);
    assert parts[..|parts| - 1] == Split(a0, sep);
    assert PathJoin(a, b, sep) == a0 + [sep] + b;
    SplitConcat(a0, b, sep);
  }

  /** A trailing separator adds one empty segment. */
  lemma SplitTrailing(a: string, sep: char)
    ensures Split(a + [sep], sep) == Split(a, sep) + [""]
  {
    assert a + [sep] + "" == a + [sep];
    SplitConcat(a, "", sep);
  }
}
