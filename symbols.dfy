/** The instruction alphabet shared by the L-system expander and the turtle
    interpreter, and the bracket bookkeeping both of them rely on.

    `[` and `+` open a saved pen, `]` and `-` close one; both kinds share the
    interpreter's single stack, so the interpreter's nesting is measured by one
    running depth. `Scan` also tells the two kinds apart: it is the bracket
    matcher against which the expander's output is shown to pair every `]` with
    a `[` and every `-` with a `+`. */
module Symbols {

  /** The closed alphabet: two draw symbols and two kinds of bracket. */
  predicate IsSymbol(c: char) {
    c == '0' || c == '1' || c == '+' || c == '-' || c == '[' || c == ']'
  }

  predicate InAlphabet(s: string) {
    forall i :: 0 <= i < |s| ==> IsSymbol(s[i])
  }

  predicate IsDraw(c: char) { c == '0' || c == '1' }

  predicate IsOpen(c: char) { c == '[' || c == '+' }

  predicate IsClose(c: char) { c == ']' || c == '-' }

  /** How one symbol changes the number of saved pens. */
  function Delta(c: char): int {
    if IsOpen(c) then 1 else if IsClose(c) then -1 else 0
  }

  /** Opens minus closes over the whole of `s`. */
  function Depth(s: string): int {
    if s == [] then 0 else Depth(s[..|s| - 1]) + Delta(s[|s| - 1])
  }

  /** Number of occurrences of `x` in `s`. */
  function Count(s: string, x: char): nat {
    if s == [] then 0 else Count(s[..|s| - 1], x) + (if s[|s| - 1] == x then 1 else 0)
  }

  /** Number of draw symbols in `s`. */
  function Draws(s: string): nat {
    Count(s, '0') + Count(s, '1')
  }

  /** Starting from `base` saved pens, no prefix of `s` closes more than is open. */
  predicate NeverBelow(s: string, base: int) {
    forall k :: 0 <= k <= |s| ==> base + Depth(s[..k]) >= 0
  }

  /** Well-nested: no prefix closes more than it opened, and the totals agree. */
  predicate WellNested(s: string) {
    NeverBelow(s, 0) && Depth(s) == 0
  }

  lemma {:induction false} DepthConcat(a: string, b: string)
    ensures Depth(a + b) == Depth(a) + Depth(b)
  {
    if b != [] {
      var b' := b[..|b| - 1];
      assert (a + b)[..|a + b| - 1] == a + b';
      DepthConcat(a, b');
    } else {
      assert a + b == a;
    }
  }

  /** Extending a prefix by one symbol changes its depth by that symbol's change. */
  lemma DepthStep(s: string, k: nat)
    requires k < |s|
    ensures Depth(s[..k + 1]) == Depth(s[..k]) + Delta(s[k])
  {
    assert s[..k + 1][..k] == s[..k];
  }

  /** Extending a prefix by one symbol counts that symbol once more. */
  lemma CountStep(s: string, k: nat, x: char)
    requires k < |s|
    ensures Count(s[..k + 1], x) == Count(s[..k], x) + (if s[k] == x then 1 else 0)
  {
    assert s[..k + 1][..k] == s[..k];
  }

  lemma {:induction false} CountConcat(a: string, b: string, x: char)
    ensures Count(a + b, x) == Count(a, x) + Count(b, x)
  {
    if b != [] {
      var b' := b[..|b| - 1];
      assert (a + b)[..|a + b| - 1] == a + b';
      CountConcat(a, b', x);
    } else {
      assert a + b == a;
    }
  }

  /** Every symbol of an alphabet string is counted once, so its length is the sum of the counts. */
  lemma {:induction false} LengthByCounts(s: string)
    requires InAlphabet(s)
    ensures |s| == Count(s, '0') + Count(s, '1') + Count(s, '[') + Count(s, ']') + Count(s, '+') + Count(s, '-')
  {
    if s != [] {
      var p := s[..|s| - 1];
      assert s == p + [s[|s| - 1]];
      LengthByCounts(p);
    }
  }

  /** A concatenation never drops below `base` exactly when its first part does not, and its second
      part does not from where the first part left off. */
  lemma {:induction false} NeverBelowConcat(a: string, b: string, base: int)
    ensures NeverBelow(a + b, base) <==> NeverBelow(a, base) && NeverBelow(b, base + Depth(a))
  {
    if NeverBelow(a + b, base) {
      forall k | 0 <= k <= |a| ensures base + Depth(a[..k]) >= 0 {
        assert (a + b)[..k] == a[..k];
      }
      forall k | 0 <= k <= |b| ensures base + Depth(a) + Depth(b[..k]) >= 0 {
        assert (a + b)[..|a| + k] == a + b[..k];
        DepthConcat(a, b[..k]);
      }
    }
    if NeverBelow(a, base) && NeverBelow(b, base + Depth(a)) {
      forall k | 0 <= k <= |a + b| ensures base + Depth((a + b)[..k]) >= 0 {
        if k <= |a| {
          assert (a + b)[..k] == a[..k];
        } else {
          assert (a + b)[..k] == a + b[..k - |a|];
          DepthConcat(a, b[..k - |a|]);
        }
      }
    }
  }

  /** A single symbol never drops below `base` exactly when neither `base` nor `base` plus its change does. */
  lemma NeverBelowSingle(c: char, base: int)
    ensures NeverBelow([c], base) <==> base >= 0 && base + Delta(c) >= 0
  {
    assert [c][..0] == [];
    assert [c][..1] == [c];
    assert Depth([c]) == Delta(c) by {
      assert [c][..|[c]| - 1] == [];
    }
    if base >= 0 && base + Delta(c) >= 0 {
      forall k | 0 <= k <= 1 ensures base + Depth([c][..k]) >= 0 {
        if k == 1 { assert [c][..k] == [c]; } else { assert [c][..k] == []; }
      }
    }
  }

  datatype Option<T> = None | Some(value: T)

  /** The open symbol that a close symbol pairs with. */
  function Partner(c: char): char {
    if c == ']' then '[' else '+'
  }

  /** One symbol of the bracket matcher: an open is pushed, a close must find its own kind on top
      and pops it, anything else passes. */
  function ScanStep(pending: string, c: char): Option<string> {
    if IsOpen(c) then Some(pending + [c])
    else if IsClose(c) then
      if pending != [] && pending[|pending| - 1] == Partner(c) then Some(pending[..|pending| - 1]) else None
    else Some(pending)
  }

  /** The bracket matcher over `s`, starting from the unclosed opens `pending` (innermost last):
      the opens still unclosed at the end, or `None` at the first close without its own kind on top. */
  function Scan(pending: string, s: string): Option<string> {
    if s == [] then Some(pending)
    else
      match Scan(pending, s[..|s| - 1])
      case None => None
      case Some(u) => ScanStep(u, s[|s| - 1])
  }

  /** Every close pairs with an earlier open of its own kind, properly nested, and nothing stays open. */
  predicate Matched(s: string) {
    Scan([], s) == Some([])
  }

  /** Per kind, no prefix closes more than it pending: `]` against `[`, and `-` against `+`. */
  predicate KindsNested(s: string) {
    forall k :: 0 <= k <= |s| ==> Count(s[..k], '[') >= Count(s[..k], ']') && Count(s[..k], '+') >= Count(s[..k], '-')
  }

  /** Scanning `a + b` scans `a`, then `b` from the opens `a` left. */
  lemma {:induction false} ScanConcat(pending: string, a: string, b: string)
    ensures Scan(pending, a + b) == match Scan(pending, a) case None => None case Some(u) => Scan(u, b)
  {
    if b == [] {
      assert a + b == a;
    } else {
      var b', c := b[..|b| - 1], b[|b| - 1];
      assert (a + b)[..|a + b| - 1] == a + b';
      assert (a + b)[|a + b| - 1] == c;
      ScanConcat(pending, a, b');
    }
  }

  /** Scanning one symbol further into `s` takes one more matcher step. */
  lemma ScanPrefixStep(pending: string, s: string, k: nat)
    requires k < |s|
    ensures Scan(pending, s[..k + 1]) == match Scan(pending, s[..k]) case None => None case Some(u) => ScanStep(u, s[k])
  {
    assert s[..k + 1][..k] == s[..k];
  }

  /** One matcher step moves each kind's unclosed opens by that symbol's open or close. */
  lemma ScanStepCounts(pending: string, c: char)
    requires ScanStep(pending, c).Some?
    ensures Count(ScanStep(pending, c).value, '[') + (if c == ']' then 1 else 0) == Count(pending, '[') + (if c == '[' then 1 else 0)
    ensures Count(ScanStep(pending, c).value, '+') + (if c == '-' then 1 else 0) == Count(pending, '+') + (if c == '+' then 1 else 0)
    ensures |ScanStep(pending, c).value| == |pending| + Delta(c)
  {
    if IsOpen(c) {
      assert (pending + [c])[..|pending|] == pending;
    }
  }

  /** The matcher keeps count: each kind's unclosed opens are those it started with plus the opens
      minus the closes of `s`, and the number of unclosed opens moves by the depth of `s`. */
  lemma {:induction false} ScanCounts(pending: string, s: string)
    requires Scan(pending, s).Some?
    ensures Count(Scan(pending, s).value, '[') + Count(s, ']') == Count(pending, '[') + Count(s, '[')
    ensures Count(Scan(pending, s).value, '+') + Count(s, '-') == Count(pending, '+') + Count(s, '+')
    ensures |Scan(pending, s).value| == |pending| + Depth(s)
  {
    if s != [] {
      var p, c := s[..|s| - 1], s[|s| - 1];
      ScanCounts(pending, p);
      ScanStepCounts(Scan(pending, p).value, c);
    }
  }

  /** A scan that succeeds succeeds on every prefix. */
  lemma ScanPrefix(pending: string, s: string, k: nat)
    requires k <= |s|
    requires Scan(pending, s).Some?
    ensures Scan(pending, s[..k]).Some?
  {
    assert s == s[..k] + s[k..];
    ScanConcat(pending, s[..k], s[k..]);
  }

  /** A matched string is nested per kind, balanced per kind, and well-nested on the shared stack. */
  lemma MatchedNested(s: string)
    requires Matched(s)
    ensures KindsNested(s)
    ensures Count(s, '[') == Count(s, ']') && Count(s, '+') == Count(s, '-')
    ensures WellNested(s)
  {
    forall k | 0 <= k <= |s|
      ensures Count(s[..k], '[') >= Count(s[..k], ']') && Count(s[..k], '+') >= Count(s[..k], '-')
      ensures Depth(s[..k]) >= 0
    {
      ScanPrefix([], s, k);
      ScanCounts([], s[..k]);
    }
    ScanCounts([], s);
  }
}
