/**
 * The string operations the service uses: `str(n)` for a non-negative integer,
 * `sep.join(parts)` and `os.path.basename`.
 */
module Strings {

  predicate IsDigits(s: string)
  {
    forall i :: 0 <= i < |s| ==> '0' <= s[i] <= '9'
  }

  function DigitChar(d: nat): (c: char)
    requires d < 10
  {
    ('0' as int + d) as char
  }

  function DigitValue(c: char): (d: nat)
    requires '0' <= c <= '9'
  {
    c as int - '0' as int
  }

  /** Python's `str(n)` for `n >= 0`: decimal digits, no sign, no leading zero. */
  function NatToString(n: nat): (s: string)
    ensures 1 <= |s| && IsDigits(s)
    ensures (s[0] == '0') == (n == 0)
  {
    if n < 10 then [DigitChar(n)] else NatToString(n / 10) + [DigitChar(n % 10)]
  }

  /** Python's `int(s)` on a string of decimal digits. */
  function ParseNat(s: string): (n: nat)
    requires IsDigits(s)
  {
    if s == [] then 0 else 10 * ParseNat(s[..|s| - 1]) + DigitValue(s[|s| - 1])
  }

  lemma {:induction false} ParseNatToString(n: nat)
    ensures ParseNat(NatToString(n)) == n
  {
    var s := NatToString(n);
    if n < 10 {
      assert s[..|s| - 1] == [];
    } else {
      assert s[..|s| - 1] == NatToString(n / 10);
      ParseNatToString(n / 10);
    }
  }

  /** Distinct numbers print differently. */
  lemma NatToStringInjective(a: nat, b: nat)
    requires NatToString(a) == NatToString(b)
    ensures a == b
  {
    ParseNatToString(a);
    ParseNatToString(b);
  }

  /** Python's `sep.join(xs)`. */
  function Join(sep: string, xs: seq<string>): (r: string)
  {
    if |xs| == 0 then ""
    else if |xs| == 1 then xs[0]
    else xs[0] + sep + Join(sep, xs[1..])
  }

  /** What precedes part `i` in `Join(sep, xs)`: the earlier parts, each followed by `sep`. */
  function JoinBefore(sep: string, xs: seq<string>, i: nat): string
    requires i < |xs|
  {
    if i == 0 then "" else Join(sep, xs[..i]) + sep
  }

  /** What follows part `i` in `Join(sep, xs)`: the later parts, each preceded by `sep`. */
  function JoinAfter(sep: string, xs: seq<string>, i: nat): string
    requires i < |xs|
  {
    if i + 1 == |xs| then "" else sep + Join(sep, xs[i + 1..])
  }

  /** Concatenation is associative. */
  lemma AppendAssoc<T>(a: seq<T>, b: seq<T>, c: seq<T>)
    ensures a + (b + c) == (a + b) + c
  {
  }

  /** A join of two or more parts is the first part, a separator and the join of the rest. */
  lemma JoinCons(sep: string, xs: seq<string>)
    requires |xs| >= 2
    ensures Join(sep, xs) == (xs[0] + sep) + Join(sep, xs[1..])
  {
  }

  /** Part 0 of a join: nothing before it, the rest after it. */
  lemma JoinSplitFirst(sep: string, xs: seq<string>)
    requires xs != []
    ensures Join(sep, xs) == JoinBefore(sep, xs, 0) + xs[0] + JoinAfter(sep, xs, 0)
  {
    if |xs| > 1 {
      JoinCons(sep, xs);
      AppendAssoc(xs[0], sep, Join(sep, xs[1..]));
    }
  }

  /** What precedes part `i > 0` is the first part and a separator, then what precedes it in the rest. */
  lemma JoinBeforeStep(sep: string, xs: seq<string>, i: nat)
    requires 0 < i < |xs|
    ensures JoinBefore(sep, xs, i) == (xs[0] + sep) + JoinBefore(sep, xs[1..], i - 1)
  {
    if i == 1 {
      assert xs[..i] == [xs[0]];
    } else {
      assert xs[..i][1..] == xs[1..][..i - 1];
      JoinCons(sep, xs[..i]);
      AppendAssoc(xs[0] + sep, Join(sep, xs[1..][..i - 1]), sep);
    }
  }

  /** What follows part `i > 0` is what follows it in the rest. */
  lemma JoinAfterStep(sep: string, xs: seq<string>, i: nat)
    requires 0 < i < |xs|
    ensures JoinAfter(sep, xs, i) == JoinAfter(sep, xs[1..], i - 1)
  {
    assert xs[1..][i..] == xs[i + 1..];
  }

  /**
   * The layout of a join: every part appears whole, in order, with exactly one
   * separator between neighbours and none before the first or after the last.
   */
  lemma {:induction false} JoinSplit(sep: string, xs: seq<string>, i: nat)
    requires i < |xs|
    ensures Join(sep, xs) == JoinBefore(sep, xs, i) + xs[i] + JoinAfter(sep, xs, i)
  {
    if i == 0 {
      JoinSplitFirst(sep, xs);
    } else {
      var tail := xs[1..];
      var head := xs[0] + sep;
      var before, after := JoinBefore(sep, tail, i - 1), JoinAfter(sep, tail, i - 1);
      calc {
        Join(sep, xs);
      == { JoinCons(sep, xs); }
        head + Join(sep, tail);
      == { JoinSplit(sep, tail, i - 1); assert tail[i - 1] == xs[i]; }
        head + ((before + xs[i]) + after);
      == { AppendAssoc(head, before + xs[i], after); AppendAssoc(head, before, xs[i]); }
        ((head + before) + xs[i]) + after;
      == { JoinBeforeStep(sep, xs, i); JoinAfterStep(sep, xs, i); }
        JoinBefore(sep, xs, i) + xs[i] + JoinAfter(sep, xs, i);
      }
    }
  }

  /** `os.path.basename` on a POSIX path: whatever follows the last `/`. */
  function BaseName(path: string): (b: string)
    ensures |b| <= |path| && b == path[|path| - |b|..]
    ensures forall i :: 0 <= i < |b| ==> b[i] != '/'
    ensures |b| < |path| ==> path[|path| - |b| - 1] == '/'
  {
    if path == [] then ""
    else if path[|path| - 1] == '/' then ""
    else BaseName(path[..|path| - 1]) + [path[|path| - 1]]
  }
}
