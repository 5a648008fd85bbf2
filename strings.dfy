/**
 * Character classes and sequence helpers shared by the text, URL and
 * extraction modules: Python's notion of whitespace, ASCII letters,
 * `str.split` with an explicit separator, `str.lower` on ASCII, and the
 * subsequence relation used to state what a filter keeps.
 */
module Strings {

  datatype Option<+T> = None | Some(value: T)

  /** Python's `str.isspace()`, which is also what `\s` matches in a `str` regex. */
  predicate IsSpace(c: char) {
    || c == ' ' || ('\t' <= c <= '\r')
    || ('\U{1C}' <= c <= '\U{1F}')
    || c == '\U{85}' || c == '\U{A0}' || c == '\U{1680}'
    || ('\U{2000}' <= c <= '\U{200A}')
    || c == '\U{2028}' || c == '\U{2029}' || c == '\U{202F}' || c == '\U{205F}' || c == '\U{3000}'
  }

  /** The regex class `[a-zA-Z]`. */
  predicate IsLetter(c: char) {
    ('a' <= c <= 'z') || ('A' <= c <= 'Z')
  }

  predicate HasLetter(s: string) {
    exists i :: 0 <= i < |s| && IsLetter(s[i])
  }

  /** `str.lower()` restricted to ASCII upper-case letters. */
  function LowerChar(c: char): (d: char)
    ensures 'A' <= c <= 'Z' ==> 'a' <= d <= 'z'
    ensures !('A' <= c <= 'Z') ==> d == c
  {
    if 'A' <= c <= 'Z' then (c as int + 32) as char else c
  }

  function Lower(s: string): (r: string)
    ensures |r| == |s|
    ensures forall i :: 0 <= i < |s| ==> r[i] == LowerChar(s[i])
  {
    if s == [] then [] else [LowerChar(s[0])] + Lower(s[1..])
  }

  /** `s.split(sep)` with an explicit one-character separator: every occurrence splits,
      empty pieces are kept, and `"".split(sep)` is `[""]`. */
  function Split(s: string, sep: char): (r: seq<string>)
    ensures |r| >= 1
    ensures forall i :: 0 <= i < |r| ==> sep !in r[i]
  {
    if s == [] then [""]
    else if s[0] == sep then [""] + Split(s[1..], sep)
    else
      var rest := Split(s[1..], sep);
      [[s[0]] + rest[0]] + rest[1..]
  }

  /** `sep.join(parts)`. */
  function Join(parts: seq<string>, sep: char): string {
    if parts == [] then ""
    else if |parts| == 1 then parts[0]
    else parts[0] + [sep] + Join(parts[1..], sep)
  }

  /** Joining the pieces of a split with the same separator gives the string back. */
  lemma {:induction false} JoinSplit(s: string, sep: char)
    ensures Join(Split(s, sep), sep) == s
  {
    if s == [] {
    } else if s[0] == sep {
      JoinSplit(s[1..], sep);
      var rest := Split(s[1..], sep);
      assert Split(s, sep) == [""] + rest;
      assert ([""] + rest)[1..] == rest;
    } else {
      JoinSplit(s[1..], sep);
      var rest := Split(s[1..], sep);
      var r := Split(s, sep);
      assert r[1..] == rest[1..];
      if |rest| == 1 {
        assert r == [[s[0]] + rest[0]];
      } else {
        assert Join(rest, sep) == rest[0] + [sep] + Join(rest[1..], sep);
        assert Join(r, sep) == [s[0]] + rest[0] + [sep] + Join(rest[1..], sep);
      }
    }
  }

  /** The number of pieces is one more than the number of separators. */
  lemma {:induction false} SplitCount(s: string, sep: char)
    ensures |Split(s, sep)| == Count(s, sep) + 1
  {
    if s != [] {
      SplitCount(s[1..], sep);
    }
  }

  /** Every character of every piece occurs in the split string. */
  lemma {:induction false} SplitChars(s: string, sep: char, i: nat, k: nat)
    requires i < |Split(s, sep)| && k < |Split(s, sep)[i]|
    ensures Split(s, sep)[i][k] in s
  {
    if s == [] {
    } else if s[0] == sep {
      if i > 0 {
        SplitChars(s[1..], sep, i - 1, k);
      }
    } else {
      var rest := Split(s[1..], sep);
      if i == 0 {
        if k > 0 {
          SplitChars(s[1..], sep, 0, k - 1);
        }
      } else {
        SplitChars(s[1..], sep, i, k);
      }
    }
  }

  /** Splitting at a separator occurrence splits the two sides independently. */
  lemma {:induction false} SplitConcat(a: string, b: string, sep: char)
    ensures Split(a + [sep] + b, sep) == Split(a, sep) + Split(b, sep)
  {
    var t := a + [sep] + b;
    if a == [] {
      assert t[0] == sep && t[1..] == b;
    } else {
      assert t[0] == a[0] && t[1..] == a[1..] + [sep] + b;
      SplitConcat(a[1..], b, sep);
      if a[0] == sep {
        SplitAtSeparator(t, sep);
        SplitAtSeparator(a, sep);
      } else {
        var ra := Split(a[1..], sep);
        var rb := Split(b, sep);
        SplitHead(t, ra + rb, sep);
        SplitHead(a, ra, sep);
        assert (ra + rb)[0] == ra[0] && (ra + rb)[1..] == ra[1..] + rb;
      }
    }
  }

  /** A leading separator closes an empty first piece. */
  lemma SplitAtSeparator(s: string, sep: char)
    requires s != [] && s[0] == sep
    ensures Split(s, sep) == [""] + Split(s[1..], sep)
  {
  }

  /** A first character that is not the separator joins the first piece of the rest. */
  lemma SplitHead(s: string, rest: seq<string>, sep: char)
    requires s != [] && s[0] != sep && Split(s[1..], sep) == rest
    ensures Split(s, sep) == [[s[0]] + rest[0]] + rest[1..]
  {
  }

  /** A string without the separator splits into itself alone. */
  lemma {:induction false} SplitNoSeparator(s: string, sep: char)
    requires sep !in s
    ensures Split(s, sep) == [s]
  {
    if s != [] {
      assert s[0] != sep;
      assert sep !in s[1..] by {
        forall i | 0 <= i < |s[1..]| ensures s[1..][i] != sep {
          assert s[1..][i] == s[i + 1];
        }
      }
      SplitNoSeparator(s[1..], sep);
      assert [s[0]] + s[1..] == s;
    }
  }

  function Count<T(==)>(s: seq<T>, x: T): (n: nat)
    ensures n <= |s|
    ensures n == 0 <==> x !in s
  {
    if s == [] then 0 else (if s[0] == x then 1 else 0) + Count(s[1..], x)
  }

  lemma ConsAppend<T>(h: T, x: seq<T>, y: seq<T>)
    ensures [h] + (x + y) == ([h] + x) + y
  {
  }

  /** Growing the first piece of a list of pieces commutes with appending more pieces. */
  lemma ExtendFirst<T>(h: seq<T>, xs: seq<seq<T>>, ys: seq<seq<T>>)
    requires xs != []
    ensures [h + (xs + ys)[0]] + (xs + ys)[1..] == ([h + xs[0]] + xs[1..]) + ys
  {
    assert (xs + ys)[0] == xs[0];
    assert (xs + ys)[1..] == xs[1..] + ys;
  }

  /** Counting distributes over concatenation. */
  lemma {:induction false} CountAppend<T>(a: seq<T>, b: seq<T>, x: T)
    ensures Count(a + b, x) == Count(a, x) + Count(b, x)
  {
    if a != [] {
      CountAppend(a[1..], b, x);
      assert (a + b)[1..] == a[1..] + b;
    } else {
      assert a + b == b;
    }
  }

  /** `a` is obtained from `b` by deleting elements, keeping the order of the rest. */
  predicate IsSubseq<T(==)>(a: seq<T>, b: seq<T>)
    decreases |b|
  {
    if a == [] then true
    else if b == [] then false
    else if a[0] == b[0] then IsSubseq(a[1..], b[1..])
    else IsSubseq(a, b[1..])
  }

  lemma {:induction false} SubseqLength<T>(a: seq<T>, b: seq<T>)
    requires IsSubseq(a, b)
    ensures |a| <= |b|
    decreases |b|
  {
    if a != [] && b != [] {
      if a[0] == b[0] {
        SubseqLength(a[1..], b[1..]);
      } else {
        SubseqLength(a, b[1..]);
      }
    }
  }

  lemma {:induction false} SubseqMembers<T>(a: seq<T>, b: seq<T>, x: T)
    requires IsSubseq(a, b) && x in a
    ensures x in b
    decreases |b|
  {
    assert a != [] && b != [];
    if a[0] == b[0] {
      if x != a[0] {
        assert x in a[1..];
        SubseqMembers(a[1..], b[1..], x);
      }
    } else {
      SubseqMembers(a, b[1..], x);
    }
  }

  lemma {:induction false} SubseqRefl<T>(a: seq<T>)
    ensures IsSubseq(a, a)
  {
    if a != [] {
      SubseqRefl(a[1..]);
    }
  }

  lemma {:induction false} SubseqConsRight<T>(a: seq<T>, x: T, b: seq<T>)
    requires IsSubseq(a, b)
    ensures IsSubseq(a, [x] + b)
    decreases |b|, 1
  {
    if a != [] {
      assert ([x] + b)[1..] == b;
      if a[0] == x {
        SubseqTail(a, b);
      }
    }
  }

  lemma {:induction false} SubseqTail<T>(a: seq<T>, b: seq<T>)
    requires a != [] && IsSubseq(a, b)
    ensures IsSubseq(a[1..], b)
    decreases |b|, 0
  {
    assert b != [];
    if a[0] == b[0] {
      SubseqConsRight(a[1..], b[0], b[1..]);
    } else {
      SubseqTail(a, b[1..]);
      SubseqConsRight(a[1..], b[0], b[1..]);
    }
    assert [b[0]] + b[1..] == b;
  }

  lemma {:induction false} SubseqConcat<T>(a1: seq<T>, b1: seq<T>, a2: seq<T>, b2: seq<T>)
    requires IsSubseq(a1, b1) && IsSubseq(a2, b2)
    ensures IsSubseq(a1 + a2, b1 + b2)
    decreases |b1|
  {
    if a1 == [] {
      assert a1 + a2 == a2;
      if b1 != [] {
        SubseqConcat(a1, b1[1..], a2, b2);
        assert b1 + b2 == [b1[0]] + (b1[1..] + b2);
        SubseqConsRight(a1 + a2, b1[0], b1[1..] + b2);
      } else {
        assert b1 + b2 == b2;
      }
    } else {
      assert b1 != [];
      assert (b1 + b2)[1..] == b1[1..] + b2;
      if a1[0] == b1[0] {
        SubseqConcat(a1[1..], b1[1..], a2, b2);
        assert (a1 + a2)[1..] == a1[1..] + a2;
      } else {
        SubseqConcat(a1, b1[1..], a2, b2);
      }
    }
  }

  lemma {:induction false} SubseqTrans<T>(a: seq<T>, b: seq<T>, c: seq<T>)
    requires IsSubseq(a, b) && IsSubseq(b, c)
    ensures IsSubseq(a, c)
    decreases |c|
  {
    if a != [] {
      assert b != [] && c != [];
      if b[0] == c[0] {
        if a[0] == b[0] {
          SubseqTrans(a[1..], b[1..], c[1..]);
        } else {
          SubseqTrans(a, b[1..], c[1..]);
          SubseqDropHead(a, c);
        }
      } else {
        SubseqTrans(a, b, c[1..]);
        SubseqDropHead(a, c);
      }
    }
  }

  lemma SubseqDropHead<T>(a: seq<T>, c: seq<T>)
    requires c != [] && IsSubseq(a, c[1..])
    ensures IsSubseq(a, c)
  {
    SubseqConsRight(a, c[0], c[1..]);
    assert [c[0]] + c[1..] == c;
  }

  lemma Assoc<T>(x: seq<T>, y: seq<T>, z: seq<T>)
    ensures x + (y + z) == (x + y) + z
  {
  }

  /** The entries of `xs` whose flag in `fs` is set, in their order. */
  function Select<T>(xs: seq<T>, fs: seq<bool>): (r: seq<T>)
    requires |xs| == |fs|
    ensures |r| <= |xs|
  {
    if xs == [] then [] else (if fs[0] then [xs[0]] else []) + Select(xs[1..], fs[1..])
  }

  function Falses(k: nat): (r: seq<bool>)
    ensures |r| == k
  {
    seq(k, _ => false)
  }

  lemma {:induction false} SelectAppend<T>(x1: seq<T>, f1: seq<bool>, x2: seq<T>, f2: seq<bool>)
    requires |x1| == |f1| && |x2| == |f2|
    ensures Select(x1 + x2, f1 + f2) == Select(x1, f1) + Select(x2, f2)
  {
    if x1 == [] {
      assert x1 + x2 == x2 && f1 + f2 == f2;
    } else {
      SelectAppend(x1[1..], f1[1..], x2, f2);
      var x, f := x1 + x2, f1 + f2;
      assert x != [] && x[0] == x1[0] && x[1..] == x1[1..] + x2;
      assert f != [] && f[0] == f1[0] && f[1..] == f1[1..] + f2;
      var h := if f1[0] then [x1[0]] else [];
      assert Select(x, f) == h + (Select(x1[1..], f1[1..]) + Select(x2, f2));
      assert h + (Select(x1[1..], f1[1..]) + Select(x2, f2)) == (h + Select(x1[1..], f1[1..])) + Select(x2, f2);
    }
  }

  /** Nothing is selected by flags that are all unset. */
  lemma {:induction false} SelectFalses<T>(xs: seq<T>)
    ensures Select(xs, Falses(|xs|)) == []
  {
    if xs != [] {
      assert Falses(|xs|)[0] == false && Falses(|xs|)[1..] == Falses(|xs| - 1);
      SelectFalses(xs[1..]);
    }
  }

  /** What is selected is a subsequence. */
  lemma {:induction false} SelectSubseq<T>(xs: seq<T>, fs: seq<bool>)
    requires |xs| == |fs|
    ensures IsSubseq(Select(xs, fs), xs)
  {
    if xs != [] {
      SelectSubseq(xs[1..], fs[1..]);
      var rest := Select(xs[1..], fs[1..]);
      if fs[0] {
        assert Select(xs, fs) == [xs[0]] + rest;
        assert ([xs[0]] + rest)[1..] == rest;
      } else {
        assert Select(xs, fs) == rest;
        SubseqDropHead(rest, xs);
      }
    }
  }
}
