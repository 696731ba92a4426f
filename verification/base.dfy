/** Small shared vocabulary: an optional value (JavaScript's `undefined`/`null`
    or a failed call), JavaScript's `Array.prototype.join` and
    `String.prototype.split` with a one-character separator, and the ASCII
    character classes the rest of the model talks about. */
module Base {

  datatype Option<+T> = None | Some(value: T)

  predicate IsUpper(c: char) { 'A' <= c <= 'Z' }
  predicate IsLower(c: char) { 'a' <= c <= 'z' }
  predicate IsDigit(c: char) { '0' <= c <= '9' }

  /** `parts.join(sep)`: the empty list joins to "", one part joins to itself. */
  function Join(parts: seq<string>, sep: string): string
  {
    if |parts| == 0 then ""
    else if |parts| == 1 then parts[0]
    else parts[0] + sep + Join(parts[1..], sep)
  }

  /** A JavaScript default parameter: the given value, or the default when
      the argument is absent. */
  function GetOr<T>(o: Option<T>, default: T): (v: T)
    ensures o.Some? ==> v == o.value
    ensures o.None? ==> v == default
  {
    if o.Some? then o.value else default
  }

  /** Concatenation regroups freely. */
  lemma {:induction false} AppendAssoc<T>(a: seq<T>, b: seq<T>, c: seq<T>)
    ensures a + b + c == a + (b + c)
  {
  }

  /** A non-empty sequence is its head in front of its tail. */
  lemma {:induction false} HeadTail<T>(s: seq<T>)
    requires |s| > 0
    ensures [s[0]] + s[1..] == s
  {
  }

  /** Joining four parts is writing them out with the separator between. */
  lemma {:induction false} JoinFour(a: string, b: string, c: string, d: string, sep: string)
    ensures Join([a, b, c, d], sep) == a + sep + b + sep + c + sep + d
  {
    var ws := [a, b, c, d];
    assert Join(ws[3..], sep) == d;
    assert Join(ws[2..], sep) == c + sep + d;
    assert Join(ws[1..], sep) == b + sep + c + sep + d;
  }

  /** `s.split(sep)` for a one-character separator: always at least one piece,
      and an empty piece wherever two separators (or an end) are adjacent. */
  function Split(s: string, sep: char): (r: seq<string>)
    ensures |r| >= 1
    ensures sep !in s ==> r == [s]
    decreases |s|
  {
    if |s| == 0 then [""]
    else
      var rest := Split(s[1..], sep);
      if s[0] == sep then [""] + rest
      else
        assert [s[0]] + s[1..] == s;
        [[s[0]] + rest[0]] + rest[1..]
  }

  /** Splitting on a separator that a prefix does not contain peels that
      prefix off as the first piece. */
  lemma {:induction false} SplitAfterPrefix(a: string, sep: char, b: string)
    requires sep !in a
    ensures Split(a + [sep] + b, sep) == [a] + Split(b, sep)
    decreases |a|
  {
    if |a| == 0 {
      assert a + [sep] + b == [sep] + b;
      assert ([sep] + b)[1..] == b;
    } else {
      assert (a + [sep] + b)[1..] == a[1..] + [sep] + b;
      SplitAfterPrefix(a[1..], sep, b);
      assert [a[0]] + a[1..] == a;
    }
  }

  /** Split undoes Join when no part contains the separator. */
  lemma {:induction false} SplitJoin(parts: seq<string>, sep: char)
    requires |parts| >= 1
    requires forall i | 0 <= i < |parts| :: sep !in parts[i]
    ensures Split(Join(parts, [sep]), sep) == parts
    decreases |parts|
  {
    if |parts| == 1 {
    } else {
      SplitJoin(parts[1..], sep);
      SplitAfterPrefix(parts[0], sep, Join(parts[1..], [sep]));
      assert [parts[0]] + parts[1..] == parts;
    }
  }

  /** Position of the first `sep` in `s`, or `|s|` when there is none. */
  function FirstIndex(s: string, sep: char): (i: nat)
    ensures i <= |s|
  {
    if |s| == 0 || s[0] == sep then 0 else 1 + FirstIndex(s[1..], sep)
  }

  lemma {:induction false} FirstIndexAfterPrefix(a: string, sep: char, b: string)
    requires sep !in a
    ensures FirstIndex(a + [sep] + b, sep) == |a|
    decreases |a|
  {
    if |a| > 0 {
      assert (a + [sep] + b)[1..] == a[1..] + [sep] + b;
      FirstIndexAfterPrefix(a[1..], sep, b);
    }
  }

  /** If `a` and `c` are free of `sep`, the first `sep` fixes the split point:
      `a + [sep] + b == c + [sep] + d` forces `a == c` and `b == d`. */
  lemma {:induction false} FirstSeparatorDecides(a: string, b: string, c: string, d: string, sep: char)
    requires sep !in a && sep !in c
    requires a + [sep] + b == c + [sep] + d
    ensures a == c && b == d
  {
    var s := a + [sep] + b;
    FirstIndexAfterPrefix(a, sep, b);
    FirstIndexAfterPrefix(c, sep, d);
    assert a == s[..|a|] == c;
    assert b == s[|a| + 1..] == d;
  }

  /** A character property that holds throughout every part and the separator
      holds throughout the joined string. */
  lemma {:induction false} JoinKeeps(parts: seq<string>, sep: string, p: char -> bool)
    requires forall i, k | 0 <= i < |parts| && 0 <= k < |parts[i]| :: p(parts[i][k])
    requires forall k | 0 <= k < |sep| :: p(sep[k])
    ensures forall k | 0 <= k < |Join(parts, sep)| :: p(Join(parts, sep)[k])
    decreases |parts|
  {
    if |parts| > 1 {
      JoinKeeps(parts[1..], sep, p);
      var rest := Join(parts[1..], sep);
      var whole := parts[0] + sep + rest;
      forall k | 0 <= k < |whole|
        ensures p(whole[k])
      {
        if k < |parts[0]| {
          assert whole[k] == parts[0][k];
        } else if k < |parts[0]| + |sep| {
          assert whole[k] == sep[k - |parts[0]|];
        } else {
          assert whole[k] == rest[k - |parts[0]| - |sep|];
        }
      }
    } else if |parts| == 1 {
      assert forall k | 0 <= k < |parts[0]| :: p(parts[0][k]);
    }
  }

  // ---------------------------------------------------------------------------
  // Nested loops

  /** `f` applied to `x` and each of `ys`, in order: one pass of an inner loop. */
  function Across<A, B, C>(x: A, ys: seq<B>, f: (A, B) --> C): (r: seq<C>)
    requires forall j | 0 <= j < |ys| :: f.requires(x, ys[j])
    ensures |r| == |ys| && forall j | 0 <= j < |ys| :: r[j] == f(x, ys[j])
  {
    seq(|ys|, j requires 0 <= j < |ys| => f(x, ys[j]))
  }

  /** What two nested loops over `xs` and `ys` produce: the outer element
      varies slowest. */
  function Grid<A, B, C>(xs: seq<A>, ys: seq<B>, f: (A, B) --> C): (r: seq<C>)
    requires forall i, j | 0 <= i < |xs| && 0 <= j < |ys| :: f.requires(xs[i], ys[j])
    decreases |xs|
  {
    if |xs| == 0 then []
    else
      var m := |xs| - 1;
      assert forall i | 0 <= i < m :: xs[..m][i] == xs[i];
      Grid(xs[..m], ys, f) + Across(xs[m], ys, f)
  }

  lemma {:induction false} GridLength<A, B, C>(xs: seq<A>, ys: seq<B>, f: (A, B) --> C)
    requires forall i, j | 0 <= i < |xs| && 0 <= j < |ys| :: f.requires(xs[i], ys[j])
    ensures |Grid(xs, ys, f)| == |xs| * |ys|
    decreases |xs|
  {
    if |xs| > 0 {
      var m := |xs| - 1;
      assert forall i | 0 <= i < m :: xs[..m][i] == xs[i];
      GridLength(xs[..m], ys, f);
      assert |xs| * |ys| == m * |ys| + |ys|;
    }
  }

  /** The pair (`xs[i]`, `ys[j]`) has its result at index `i * |ys| + j`. */
  lemma {:induction false} GridAt<A, B, C>(xs: seq<A>, ys: seq<B>, f: (A, B) --> C, i: nat, j: nat)
    requires forall i, j | 0 <= i < |xs| && 0 <= j < |ys| :: f.requires(xs[i], ys[j])
    requires i < |xs| && j < |ys|
    ensures i * |ys| + j < |Grid(xs, ys, f)|
    ensures Grid(xs, ys, f)[i * |ys| + j] == f(xs[i], ys[j])
    decreases |xs|
  {
    var n := |ys|;
    var m := |xs| - 1;
    var front := xs[..m];
    assert forall i | 0 <= i < m :: front[i] == xs[i];
    GridLength(front, ys, f);
    GridLength(xs, ys, f);
    if i < m {
      GridAt(front, ys, f, i, j);
    } else {
      assert i * n + j == m * n + j;
    }
  }

  /** Every index of a grid is the place of one pair. */
  lemma {:induction false} GridCell<A, B, C>(xs: seq<A>, ys: seq<B>, f: (A, B) --> C, k: nat) returns (i: nat, j: nat)
    requires forall i, j | 0 <= i < |xs| && 0 <= j < |ys| :: f.requires(xs[i], ys[j])
    requires k < |Grid(xs, ys, f)|
    ensures i < |xs| && j < |ys| && Grid(xs, ys, f)[k] == f(xs[i], ys[j])
  {
    GridLength(xs, ys, f);
    i, j := Position(k, |xs|, |ys|);
    GridAt(xs, ys, f, i, j);
  }

  /** An index below `m * n` is the place of exactly one (row, column) pair. */
  lemma {:induction false} Position(k: nat, m: nat, n: nat) returns (i: nat, j: nat)
    requires k < m * n
    ensures i < m && j < n && k == i * n + j
  {
    assert n > 0;
    i, j := k / n, k % n;
  }

  /** `s` ends with `suffix`. */
  predicate EndsWith(s: string, suffix: string)
  {
    |s| >= |suffix| && s[|s| - |suffix|..] == suffix
  }

  lemma {:induction false} EndsWithAppend(x: string, tail: string, y: string, z: string)
    requires tail == y + z
    ensures EndsWith(x + tail, z)
  {
    assert (x + tail)[|x + tail| - |z|..] == z;
  }
}
