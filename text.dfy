/**
 * Python `str` behaviour the snapshot engine relies on: the ordering `<`
 * used to sort timestamps, `readlines()` on a text file, and `sep.join`.
 */
module Text {

  /** Python's `a < b` on strings: lexicographic by code point, a proper prefix first. */
  predicate StrLess(a: string, b: string)
  {
    if |a| == 0 then |b| > 0
    else if |b| == 0 then false
    else if a[0] == b[0] then StrLess(a[1..], b[1..])
    else a[0] < b[0]
  }

  lemma {:induction false} StrLessIrreflexive(a: string)
    ensures !StrLess(a, a)
  {
    if |a| > 0 {
      StrLessIrreflexive(a[1..]);
    }
  }

  /** Two different strings are always ordered one way or the other. */
  lemma {:induction false} StrLessTotal(a: string, b: string)
    ensures a == b || StrLess(a, b) || StrLess(b, a)
  {
    if |a| > 0 && |b| > 0 && a[0] == b[0] {
      StrLessTotal(a[1..], b[1..]);
      if a[1..] == b[1..] {
        assert a == [a[0]] + a[1..] && b == [b[0]] + b[1..];
      }
    }
  }

  lemma {:induction false} StrLessTransitive(a: string, b: string, c: string)
    requires StrLess(a, b) && StrLess(b, c)
    ensures StrLess(a, c)
  {
    if |a| > 0 && a[0] == b[0] && b[0] == c[0] {
      StrLessTransitive(a[1..], b[1..], c[1..]);
    }
  }

  lemma {:induction false} StrLessAsymmetric(a: string, b: string)
    requires StrLess(a, b)
    ensures !StrLess(b, a)
  {
    if |a| > 0 && a[0] == b[0] {
      StrLessAsymmetric(a[1..], b[1..]);
    }
  }

  /** `a >= b` and `b >= c` give `a >= c`: descending order is transitive. */
  lemma {:induction false} NotLessTransitive(a: string, b: string, c: string)
    requires !StrLess(a, b) && !StrLess(b, c)
    ensures !StrLess(a, c)
  {
    StrLessTotal(a, b);
    StrLessTotal(b, c);
    if a != b && b != c {
      StrLessTransitive(c, b, a);
      StrLessAsymmetric(c, a);
    }
  }

  /** The concatenation of a sequence of strings (`''.join(parts)`). */
  function Concat(parts: seq<string>): string
  {
    if parts == [] then [] else parts[0] + Concat(parts[1..])
  }

  /**
   * `f.readlines()` on a file holding `s`: the text split after every
   * newline, each line keeping its `'\n'`; a last line without one is kept.
   */
  function ReadLines(s: string): (lines: seq<string>)
    ensures |lines| <= |s|
    ensures s != [] ==> lines != []
  {
    if s == [] then []
    else if s[0] == '\n' then [['\n']] + ReadLines(s[1..])
    else
      var rest := ReadLines(s[1..]);
      if rest == [] then [[s[0]]]
      else [[s[0]] + rest[0]] + rest[1..]
  }

  /** A well-formed line list: no empty line, and a newline only at the end of a line. */
  predicate LinesShape(lines: seq<string>)
  {
    && (forall i :: 0 <= i < |lines| ==> lines[i] != [])
    && (forall i, j :: 0 <= i < |lines| && 0 <= j < |lines[i]| - 1 ==> lines[i][j] != '\n')
    && (forall i :: 0 <= i < |lines| - 1 ==> lines[i][|lines[i]| - 1] == '\n')
  }

  /** `readlines` loses nothing: gluing the lines back gives the file's text. */
  lemma {:induction false} ReadLinesConcat(s: string)
    ensures Concat(ReadLines(s)) == s
  {
    if s != [] {
      ReadLinesConcat(s[1..]);
      var rest := ReadLines(s[1..]);
      assert s == [s[0]] + s[1..];
      if s[0] == '\n' {
        assert ReadLines(s)[1..] == rest;
      } else if rest != [] {
        assert ReadLines(s)[1..] == rest[1..];
        assert Concat(rest) == rest[0] + Concat(rest[1..]);
      }
    }
  }

  /** Every line `readlines` yields but the last ends at a newline, with none before it. */
  lemma {:induction false} ReadLinesShape(s: string)
    ensures LinesShape(ReadLines(s))
  {
    if s != [] {
      ReadLinesShape(s[1..]);
      var rest := ReadLines(s[1..]);
      var lines := ReadLines(s);
      if s[0] == '\n' {
        forall i | 1 <= i < |lines|
          ensures lines[i] == rest[i - 1]
        {
        }
      } else if rest != [] {
        forall i | 1 <= i < |lines|
          ensures lines[i] == rest[i]
        {
        }
        forall j | 0 <= j < |lines[0]| - 1
          ensures lines[0][j] != '\n'
        {
          if j > 0 {
            assert lines[0][j] == rest[0][j - 1];
          }
        }
      }
    }
  }

  /** Python's `sep.join(parts)`: the parts with `sep` between neighbours. */
  function Join(sep: string, parts: seq<string>): (r: string)
    ensures |r| == |Concat(parts)| + (if parts == [] then 0 else (|parts| - 1) * |sep|)
  {
    if parts == [] then []
    else if |parts| == 1 then parts[0]
    else parts[0] + sep + Join(sep, parts[1..])
  }
}
