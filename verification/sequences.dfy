/** Generic splitting and joining of sequences on a one-element separator. */
module Sequences {
  /** Splits `s` at every occurrence of `sep`; there is always at least one part. */
  function SplitOn<T(==)>(s: seq<T>, sep: T): (parts: seq<seq<T>>)
    ensures |parts| > 0
    ensures forall i :: 0 <= i < |parts| ==> sep !in parts[i]
    decreases |s|
  {
    if |s| == 0 then [[]]
    else
      var rest := SplitOn(s[1..], sep);
      if s[0] == sep then [[]] + rest
      else [[s[0]] + rest[0]] + rest[1..]
  }

  /** Concatenates `parts` with `sep` between neighbours. */
  function JoinWith<T>(parts: seq<seq<T>>, sep: T): seq<T>
    decreases |parts|
  {
    if |parts| == 0 then []
    else if |parts| == 1 then parts[0]
    else parts[0] + [sep] + JoinWith(parts[1..], sep)
  }

  /** A sequence is its prefix of length `k` followed by the rest. */
  lemma TakeDrop<T>(s: seq<T>, k: nat)
    requires k <= |s|
    ensures s[..k] + s[k..] == s
  {
  }

  lemma ConcatHead<T>(a: seq<T>, b: seq<T>)
    requires |a| > 0
    ensures (a + b)[0] == a[0] && (a + b)[1..] == a[1..] + b
  {
  }

  lemma TakeSnoc<T>(s: seq<T>, i: nat)
    requires i < |s|
    ensures s[..i + 1] == s[..i] + [s[i]]
  {
  }

  lemma Around<T>(s: seq<T>, i: nat, k: nat)
    requires i + k <= |s|
    ensures s == s[..i] + s[i..i + k] + s[i + k..]
  {
  }

  /** Concatenation is associative (stated separately: the solver handles it poorly in large contexts). */
  lemma ConcatAssociative<T>(a: seq<T>, b: seq<T>, c: seq<T>)
    ensures (a + b) + c == a + (b + c)
  {
  }

  /** A sequence of the tail that lacks `x` is a sequence of the whole that lacks it. */
  lemma MissingInTail<T>(ss: seq<seq<T>>, x: T)
    requires |ss| > 0 && exists i :: 0 <= i < |ss[1..]| && x !in ss[1..][i]
    ensures exists i :: 0 <= i < |ss| && x !in ss[i]
  {
    var i :| 0 <= i < |ss[1..]| && x !in ss[1..][i];
    assert ss[1..][i] == ss[i + 1];
  }

  /** Joining the parts of a split gives back the original sequence. */
  lemma {:induction false} JoinSplit<T>(s: seq<T>, sep: T)
    ensures JoinWith(SplitOn(s, sep), sep) == s
    decreases |s|
  {
    if |s| > 0 {
      JoinSplit(s[1..], sep);
      var rest := SplitOn(s[1..], sep);
      if s[0] == sep {
        assert ([[]] + rest)[1..] == rest;
      } else if |rest| == 1 {
      } else {
        var parts := [[s[0]] + rest[0]] + rest[1..];
        assert parts[1..] == rest[1..];
        assert JoinWith(rest, sep) == rest[0] + [sep] + JoinWith(rest[1..], sep);
      }
    }
  }

  /** Splitting a join of separator-free parts gives back the parts. */
  lemma {:induction false} SplitJoin<T>(parts: seq<seq<T>>, sep: T)
    requires |parts| > 0
    requires forall i :: 0 <= i < |parts| ==> sep !in parts[i]
    ensures SplitOn(JoinWith(parts, sep), sep) == parts
    decreases |parts|, |parts[0]|
  {
    if |parts| == 1 {
      SplitSeparatorFree(parts[0], sep);
    } else if |parts[0]| == 0 {
      SplitJoin(parts[1..], sep);
      assert JoinWith(parts, sep) == [sep] + JoinWith(parts[1..], sep);
      assert ([sep] + JoinWith(parts[1..], sep))[1..] == JoinWith(parts[1..], sep);
      assert parts == [[]] + parts[1..];
    } else {
      var shorter := [parts[0][1..]] + parts[1..];
      assert shorter[1..] == parts[1..];
      SplitJoin(shorter, sep);
      var joined := JoinWith(parts, sep);
      assert joined[1..] == JoinWith(shorter, sep);
      assert parts[0] == [parts[0][0]] + shorter[0];
      assert parts == [parts[0]] + parts[1..];
    }
  }

  /** A sequence without the separator splits into itself alone. */
  lemma {:induction false} SplitSeparatorFree<T>(s: seq<T>, sep: T)
    requires sep !in s
    ensures SplitOn(s, sep) == [s]
    decreases |s|
  {
    if |s| > 0 {
      SplitSeparatorFree(s[1..], sep);
      assert s == [s[0]] + s[1..];
    }
  }

  /** Joining one more part adds the separator and that part. */
  lemma {:induction false} JoinAppend<T>(parts: seq<seq<T>>, x: seq<T>, sep: T)
    requires |parts| > 0
    ensures JoinWith(parts + [x], sep) == JoinWith(parts, sep) + [sep] + x
    decreases |parts|
  {
    if |parts| == 1 {
      assert parts + [x] == [parts[0], x];
      assert JoinWith([x], sep) == x;
    } else {
      assert (parts + [x])[1..] == parts[1..] + [x];
      JoinAppend(parts[1..], x, sep);
      ConcatAssociative(parts[0] + [sep], JoinWith(parts[1..], sep) + [sep], x);
    }
  }

  /** `n` copies of `x`. */
  function Repeat<T>(n: nat, x: T): (r: seq<T>)
    ensures |r| == n && forall i :: 0 <= i < n ==> r[i] == x
  {
    seq(n, _ => x)
  }

  /** A run of `n` separators splits into `n + 1` empty parts. */
  lemma {:induction false} SplitSeparators<T>(n: nat, sep: T)
    ensures SplitOn(Repeat(n, sep), sep) == Repeat<seq<T>>(n + 1, [])
  {
    if n > 0 {
      SplitSeparators(n - 1, sep);
      assert Repeat(n, sep)[1..] == Repeat(n - 1, sep);
      assert Repeat<seq<T>>(n + 1, []) == [[]] + Repeat<seq<T>>(n, []);
    }
  }
}
