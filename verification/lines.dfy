/**
 Python's `str.split("\n")` and `"\n".join(...)` over Dafny strings, with the
 facts the scroll-back buffer of the hack plugin relies on: a split always
 yields at least one piece, it yields one piece more than there are newlines,
 no piece contains a newline, and joining undoes splitting.
 */
module Lines {

  const Newline: char := '\n'

  /** The number of newline characters in `s`, counted by multiset. */
  function NewlineCount(s: string): nat
  {
    multiset(s)[Newline]
  }

  /** True when no element of `xs` contains a newline. */
  predicate NoNewlines(xs: seq<string>)
  {
    forall i :: 0 <= i < |xs| ==> Newline !in xs[i]
  }

  /** `s.split("\n")`: the maximal newline-free pieces of `s`, in order.
      The empty string splits into one empty piece. */
  function Split(s: string): (r: seq<string>)
    ensures |r| >= 1
    ensures NoNewlines(r)
  {
    if |s| == 0 then [""]
    else if s[0] == Newline then [""] + Split(s[1..])
    else
      var rest := Split(s[1..]);
      [[s[0]] + rest[0]] + rest[1..]
  }

  /** `"\n".join(xs)`. */
  function Join(xs: seq<string>): string
  {
    if |xs| == 0 then ""
    else if |xs| == 1 then xs[0]
    else xs[0] + [Newline] + Join(xs[1..])
  }

  /** A split yields exactly one piece more than there are newlines. */
  lemma {:induction false} SplitLength(s: string)
    ensures |Split(s)| == NewlineCount(s) + 1
  {
    if |s| > 0 {
      assert s == [s[0]] + s[1..];
      assert multiset(s) == multiset([s[0]]) + multiset(s[1..]);
      SplitLength(s[1..]);
    }
  }

  /** Joining the pieces of a split gives back the original string. */
  lemma {:induction false} JoinSplit(s: string)
    ensures Join(Split(s)) == s
  {
    if |s| > 0 {
      JoinSplit(s[1..]);
      var rest := Split(s[1..]);
      if s[0] == Newline {
        assert Split(s) == [""] + rest;
        assert Join(Split(s)) == "" + [Newline] + Join(rest);
        assert s == [s[0]] + s[1..];
      } else {
        JoinHead(rest, [s[0]]);
        assert s == [s[0]] + s[1..];
      }
    }
  }

  /** Prepending characters to the first piece prepends them to the join. */
  lemma {:induction false} JoinHead(xs: seq<string>, p: string)
    requires |xs| >= 1
    ensures Join([p + xs[0]] + xs[1..]) == p + Join(xs)
  {
  }

  /** Splitting the join of newline-free pieces gives back the pieces. */
  lemma {:induction false} SplitJoin(xs: seq<string>)
    requires |xs| >= 1
    requires NoNewlines(xs)
    ensures Split(Join(xs)) == xs
  {
    if |xs| == 1 {
      SplitNoNewline(xs[0]);
    } else {
      SplitJoin(xs[1..]);
      SplitAfterPiece(xs[0], Join(xs[1..]));
      assert [xs[0]] + xs[1..] == xs;
    }
  }

  /** A newline-free string splits into itself. */
  lemma {:induction false} SplitNoNewline(s: string)
    requires Newline !in s
    ensures Split(s) == [s]
  {
    if |s| > 0 {
      assert Newline !in s[1..] by {
        forall i | 0 <= i < |s[1..]| ensures s[1..][i] != Newline {
          assert s[1..][i] == s[i + 1];
        }
      }
      SplitNoNewline(s[1..]);
      assert [s[0]] + s[1..] == s;
    }
  }

  /** Splitting `p + "\n" + t` for a newline-free `p` yields `p` then the pieces of `t`. */
  lemma {:induction false} SplitAfterPiece(p: string, t: string)
    requires Newline !in p
    ensures Split(p + [Newline] + t) == [p] + Split(t)
  {
    if |p| == 0 {
      assert p + [Newline] + t == [Newline] + t;
      assert ([Newline] + t)[1..] == t;
    } else {
      var s := p + [Newline] + t;
      assert s[0] == p[0];
      assert s[1..] == p[1..] + [Newline] + t;
      assert Newline !in p[1..] by {
        forall i | 0 <= i < |p[1..]| ensures p[1..][i] != Newline {
          assert p[1..][i] == p[i + 1];
        }
      }
      SplitAfterPiece(p[1..], t);
      assert [p[0]] + p[1..] == p;
    }
  }

  /** `s.endswith(suffix)`. */
  predicate EndsWith(s: string, suffix: string)
  {
    |suffix| <= |s| && s[|s| - |suffix|..] == suffix
  }
}
