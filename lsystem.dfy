/** The grammar expander: one rewriting pass maps every symbol through a fixed
    production table, and `MakeInstructions` applies that pass a given number
    of times. */
module LSystem {
  import opened Symbols

  /** The production of `0`: a stem, a marked draw that is undone, a branch, and a last draw. */
  function Branch(): string {
    "1+0-[0]0"
  }

  /** The production for one symbol: `1` doubles, `0` sprouts a branch, every
      other character is copied unchanged. */
  function Rule(c: char): (r: string)
    ensures |r| >= 1
    ensures !IsDraw(c) ==> r == [c]
  {
    if c == '1' then "11" else if c == '0' then Branch() else [c]
  }

  /** One rewriting pass: the productions of the symbols of `s`, in order. */
  function Rewrite(s: string): (r: string)
  {
    if s == [] then [] else Rewrite(s[..|s| - 1]) + Rule(s[|s| - 1])
  }

  /** `n` rewriting passes applied to `input`. */
  function Expansion(input: string, n: nat): string
    decreases n
  {
    if n == 0 then input else Expansion(Rewrite(input), n - 1)
  }

  /** One pass, built left to right by appending each symbol's production. */
  method RewritePass(input: string) returns (output: string)
    ensures output == Rewrite(input)
  {
    output := "";
    for i := 0 to |input|
      invariant output == Rewrite(input[..i])
    {
      var c := input[i];
      match c {
        case '1' => output := output + "11";
        case '0' => output := output + "1+0-[0]0";
        case _ => output := output + [c];
      }
      assert input[..i + 1][..i] == input[..i];
    }
    assert input[..|input|] == input;
  }

  /** The expander: rewrite once, then expand the result with one pass fewer. */
  method MakeInstructions(input: string, iterations: nat) returns (output: string)
    ensures output == Expansion(input, iterations)
    decreases iterations
  {
    if iterations == 0 {
      return input;
    }
    var next := RewritePass(input);
    output := MakeInstructions(next, iterations - 1);
  }

  /** Zero passes leave the input unchanged. */
  lemma ExpansionZero(s: string)
    ensures Expansion(s, 0) == s
  {
  }

  /** A pass over a string extended by one symbol appends that symbol's production. */
  lemma RewriteSnoc(p: string, c: char)
    ensures Rewrite(p + [c]) == Rewrite(p) + Rule(c)
  {
  }

  /** A pass works symbol by symbol, so it distributes over concatenation. */
  lemma {:induction false} RewriteConcat(a: string, b: string)
    ensures Rewrite(a + b) == Rewrite(a) + Rewrite(b)
  {
    if b == [] {
      assert a + b == a;
    } else {
      var b', c := b[..|b| - 1], b[|b| - 1];
      assert (a + b)[..|a + b| - 1] == a + b';
      assert (a + b)[|a + b| - 1] == c;
      calc {
        Rewrite(a + b);
        Rewrite(a + b') + Rule(c);
        { RewriteConcat(a, b'); }
        Rewrite(a) + Rewrite(b') + Rule(c);
        Rewrite(a) + (Rewrite(b') + Rule(c));
        Rewrite(a) + Rewrite(b);
      }
    }
  }

  /** The length of one pass: two for each `1`, eight for each `0`, one for every other character. */
  lemma {:induction false} RewriteLength(s: string)
    ensures |Rewrite(s)| == 2 * Count(s, '1') + 8 * Count(s, '0') + (|s| - Count(s, '1') - Count(s, '0'))
  {
    if s != [] {
      var p, c := s[..|s| - 1], s[|s| - 1];
      assert s == p + [c];
      RewriteLength(p);
      RewriteSnoc(p, c);
      CountConcat(p, [c], '0');
      CountConcat(p, [c], '1');
      assert [c][..0] == [];
    }
  }

  /** How often each character occurs in the production of `0`. */
  lemma BranchCount(x: char)
    ensures Count(Rule('0'), x) == if x == '0' then 3 else if IsSymbol(x) then 1 else 0
  {
    var r := Rule('0');
    CountStep(r, 0, x); CountStep(r, 1, x); CountStep(r, 2, x); CountStep(r, 3, x);
    CountStep(r, 4, x); CountStep(r, 5, x); CountStep(r, 6, x); CountStep(r, 7, x);
    assert r[..0] == [];
    assert r[..8] == r;
  }

  /** How often each character occurs in one symbol's production. */
  lemma RuleCount(c: char, x: char)
    ensures x == '0' ==> Count(Rule(c), x) == 3 * Count([c], '0')
    ensures x == '1' ==> Count(Rule(c), x) == 2 * Count([c], '1') + Count([c], '0')
    ensures IsOpen(x) || IsClose(x) ==> Count(Rule(c), x) == Count([c], x) + Count([c], '0')
    ensures !IsSymbol(x) ==> Count(Rule(c), x) == Count([c], x)
  {
    assert [c][..0] == [];
    if c == '0' {
      BranchCount(x);
    } else if c == '1' {
      CountStep("11", 0, x);
      CountStep("11", 1, x);
      assert "11"[..0] == [] && "11"[..2] == "11";
    }
  }

  /** How often each character occurs after one pass, in terms of the counts before it. */
  lemma {:induction false} RewriteCount(s: string, x: char)
    ensures x == '0' ==> Count(Rewrite(s), x) == 3 * Count(s, '0')
    ensures x == '1' ==> Count(Rewrite(s), x) == 2 * Count(s, '1') + Count(s, '0')
    ensures IsOpen(x) || IsClose(x) ==> Count(Rewrite(s), x) == Count(s, x) + Count(s, '0')
    ensures !IsSymbol(x) ==> Count(Rewrite(s), x) == Count(s, x)
  {
    if s != [] {
      var p, c := s[..|s| - 1], s[|s| - 1];
      assert s == p + [c];
      RewriteCount(p, x);
      RewriteSnoc(p, c);
      RuleCount(c, x);
      CountConcat(p, [c], x);
      CountConcat(Rewrite(p), Rule(c), x);
    }
  }

  /** A pass keeps the closed alphabet closed. */
  lemma {:induction false} RewriteAlphabet(s: string)
    requires InAlphabet(s)
    ensures InAlphabet(Rewrite(s))
  {
    if s != [] {
      var p := s[..|s| - 1];
      RewriteAlphabet(p);
      var r := Rule(s[|s| - 1]);
      forall i | 0 <= i < |Rewrite(s)| ensures IsSymbol(Rewrite(s)[i]) {
        if i >= |Rewrite(p)| {
          assert Rewrite(s)[i] == r[i - |Rewrite(p)|];
        }
      }
    }
  }

  /** Depths of the prefixes of the production of `0`: it never closes more than it opened. */
  lemma {:induction false} BranchPrefixDepth(k: nat)
    requires k <= |Rule('0')|
    ensures Depth(Rule('0')[..k]) == [0, 0, 1, 1, 0, 1, 1, 0, 0][k]
  {
    if k > 0 {
      BranchPrefixDepth(k - 1);
      DepthStep(Rule('0'), k - 1);
    } else {
      assert Rule('0')[..k] == [];
    }
  }

  /** A production has its symbol's depth change, and never drops below a depth from which its
      own symbol would not. */
  lemma RuleNeverBelow(c: char, base: int)
    ensures Depth(Rule(c)) == Delta(c)
    ensures base >= 0 && base + Delta(c) >= 0 ==> NeverBelow(Rule(c), base)
  {
    var r := Rule(c);
    if c == '0' {
      forall k | 0 <= k <= |r| ensures 0 <= Depth(r[..k]) == (if k == |r| then Delta(c) else Depth(r[..k])) {
        BranchPrefixDepth(k);
      }
      assert r[..|r|] == r;
    } else if c == '1' {
      forall k | 0 <= k <= |r| ensures 0 <= Depth(r[..k]) == (if k == |r| then Delta(c) else Depth(r[..k])) {
        if k > 0 {
          DepthStep(r, 0);
          if k == 2 { DepthStep(r, 1); }
        } else {
          assert r[..k] == [];
        }
      }
      assert r[..|r|] == r;
    } else {
      NeverBelowSingle(c, base);
      assert [c][..0] == [];
    }
  }

  /** A pass keeps the depth of the whole string. */
  lemma {:induction false} RewriteDepth(s: string)
    ensures Depth(Rewrite(s)) == Depth(s)
  {
    if s != [] {
      var p, c := s[..|s| - 1], s[|s| - 1];
      RewriteDepth(p);
      RuleNeverBelow(c, 0);
      RewriteSnoc(p, c);
      DepthConcat(Rewrite(p), Rule(c));
    }
  }

  /** A pass never drops below a base from which its input would not. */
  lemma {:induction false} RewriteNeverBelow(s: string, base: int)
    requires NeverBelow(s, base)
    ensures NeverBelow(Rewrite(s), base)
  {
    if s != [] {
      var p, c := s[..|s| - 1], s[|s| - 1];
      assert s == p + [c];
      NeverBelowConcat(p, [c], base);
      NeverBelowSingle(c, base + Depth(p));
      RewriteNeverBelow(p, base);
      RewriteDepth(p);
      RuleNeverBelow(c, base + Depth(p));
      RewriteSnoc(p, c);
      NeverBelowConcat(Rewrite(p), Rule(c), base);
    }
  }

  /** The opens left unclosed by the prefixes of the production of `0`: its `-` closes its `+`
      and its `]` closes its `[`, so it ends with nothing left open. */
  lemma {:induction false} BranchPrefixScan(pending: string, k: nat)
    requires k <= |Rule('0')|
    ensures Scan(pending, Rule('0')[..k]) == Some(pending + ["", "", "+", "+", "", "[", "[", "", ""][k])
  {
    if k > 0 {
      BranchPrefixScan(pending, k - 1);
      ScanPrefixStep(pending, Rule('0'), k - 1);
      if k == 4 || k == 7 {
        var top := ["", "", "+", "+", "", "[", "[", "", ""][k - 1];
        assert (pending + top)[..|pending|] == pending;
      }
    } else {
      assert Rule('0')[..k] == [];
      assert pending + "" == pending;
    }
  }

  /** The matcher sees a production exactly as it sees the symbol it replaces. */
  lemma RuleScan(pending: string, c: char)
    ensures Scan(pending, Rule(c)) == Scan(pending, [c])
  {
    assert [c][..0] == [];
    if c == '0' {
      BranchPrefixScan(pending, 8);
      assert Rule('0')[..8] == Rule('0');
      assert pending + "" == pending;
    } else if c == '1' {
      ScanPrefixStep(pending, Rule(c), 0);
      ScanPrefixStep(pending, Rule(c), 1);
      assert Rule(c)[..0] == [] && Rule(c)[..2] == Rule(c);
    }
  }

  /** A pass is invisible to the bracket matcher: it only adds matched pairs. */
  lemma {:induction false} RewriteScan(pending: string, s: string)
    ensures Scan(pending, Rewrite(s)) == Scan(pending, s)
  {
    if s != [] {
      var p, c := s[..|s| - 1], s[|s| - 1];
      assert s == p + [c];
      RewriteScan(pending, p);
      ScanConcat(pending, Rewrite(p), Rule(c));
      ScanConcat(pending, p, [c]);
      match Scan(pending, p)
      case None =>
      case Some(u) =>
        RuleScan(u, c);
    }
  }

  /** A positive number of passes is one pass followed by the rest. */
  lemma ExpansionUnfold(s: string, k: nat)
    requires k > 0
    ensures Expansion(s, k) == Expansion(Rewrite(s), k - 1)
  {
  }

  /** `m + n` passes are `n` passes applied to the result of `m` passes. */
  lemma {:induction false} ExpansionCompose(s: string, m: nat, n: nat)
    ensures Expansion(s, m + n) == Expansion(Expansion(s, m), n)
    decreases m
  {
    if m > 0 {
      var r, k := Rewrite(s), m - 1;
      calc {
        Expansion(s, m + n);
        { ExpansionUnfold(s, k + n + 1); }
        Expansion(r, k + n);
        { ExpansionCompose(r, k, n); }
        Expansion(Expansion(r, k), n);
        { ExpansionUnfold(s, k + 1); }
        Expansion(Expansion(s, m), n);
      }
    }
  }

  /** One more pass rewrites the previous expansion once more. */
  lemma ExpansionStep(s: string, n: nat)
    ensures Expansion(s, n + 1) == Rewrite(Expansion(s, n))
  {
    ExpansionCompose(s, n, 1);
  }

  /** Expansion distributes over concatenation. */
  lemma {:induction false} ExpansionConcat(a: string, b: string, n: nat)
    ensures Expansion(a + b, n) == Expansion(a, n) + Expansion(b, n)
    decreases n
  {
    if n > 0 {
      ExpansionUnfold(a + b, n);
      ExpansionUnfold(a, n);
      ExpansionUnfold(b, n);
      RewriteConcat(a, b);
      ExpansionConcat(Rewrite(a), Rewrite(b), n - 1);
    }
  }

  /** Expanding a string over the closed alphabet yields a string over the closed alphabet. */
  lemma {:induction false} ExpansionAlphabet(s: string, n: nat)
    requires InAlphabet(s)
    ensures InAlphabet(Expansion(s, n))
    decreases n
  {
    if n > 0 {
      ExpansionUnfold(s, n);
      RewriteAlphabet(s);
      ExpansionAlphabet(Rewrite(s), n - 1);
    }
  }

  /** Expanding a well-nested string yields a well-nested string. */
  lemma {:induction false} ExpansionNested(s: string, n: nat)
    requires WellNested(s)
    ensures WellNested(Expansion(s, n))
    decreases n
  {
    if n > 0 {
      ExpansionUnfold(s, n);
      RewriteDepth(s);
      RewriteNeverBelow(s, 0);
      ExpansionNested(Rewrite(s), n - 1);
    }
  }

  /** Expansion is invisible to the bracket matcher. */
  lemma {:induction false} ExpansionScan(pending: string, s: string, n: nat)
    ensures Scan(pending, Expansion(s, n)) == Scan(pending, s)
    decreases n
  {
    if n > 0 {
      calc {
        Scan(pending, Expansion(s, n));
        { ExpansionUnfold(s, n); }
        Scan(pending, Expansion(Rewrite(s), n - 1));
        { ExpansionScan(pending, Rewrite(s), n - 1); }
        Scan(pending, Rewrite(s));
        { RewriteScan(pending, s); }
        Scan(pending, s);
      }
    }
  }

  /** A seed whose brackets match expands to a string whose brackets match, kind by kind. */
  lemma ExpansionMatched(s: string, n: nat)
    ensures Matched(Expansion(s, n)) <==> Matched(s)
    ensures Matched(s) ==> KindsNested(Expansion(s, n))
  {
    ExpansionScan([], s, n);
    if Matched(s) {
      MatchedNested(Expansion(s, n));
    }
  }

  /** The tree grown from the seed `0` pairs every `]` with a `[` and every `-` with a `+`. */
  lemma SeedMatched(n: nat)
    ensures Matched(Expansion("0", n))
    ensures KindsNested(Expansion("0", n))
  {
    assert "0"[..0] == [];
    assert Matched("0");
    ExpansionMatched("0", n);
  }

  /** Each kind of bracket stays balanced on its own: every pass adds as many `[` as `]`, and as many `+` as `-`. */
  lemma {:induction false} ExpansionBracketCounts(s: string, n: nat)
    ensures Count(Expansion(s, n), '[') - Count(Expansion(s, n), ']') == Count(s, '[') - Count(s, ']')
    ensures Count(Expansion(s, n), '+') - Count(Expansion(s, n), '-') == Count(s, '+') - Count(s, '-')
    decreases n
  {
    if n > 0 {
      var r := Rewrite(s);
      ExpansionUnfold(s, n);
      ExpansionBracketCounts(r, n - 1);
      RewriteBracketCounts(s);
    }
  }

  /** One pass adds as many `[` as `]`, and as many `+` as `-`. */
  lemma RewriteBracketCounts(s: string)
    ensures Count(Rewrite(s), '[') - Count(Rewrite(s), ']') == Count(s, '[') - Count(s, ']')
    ensures Count(Rewrite(s), '+') - Count(Rewrite(s), '-') == Count(s, '+') - Count(s, '-')
  {
    RewriteCount(s, '[');
    RewriteCount(s, ']');
    RewriteCount(s, '+');
    RewriteCount(s, '-');
  }

  function Pow(b: nat, n: nat): nat {
    if n == 0 then 1 else b * Pow(b, n - 1)
  }

  /** One pass from the seed `0` gives the production of `0`. */
  lemma SeedOnePass()
    ensures Expansion("0", 1) == "1+0-[0]0"
  {
  }

  /** The seed `0` holds one `0` and nothing else. */
  lemma SeedCountBase(x: char)
    ensures Count("0", x) == if x == '0' then 1 else 0
  {
  }

  /** The symbol counts of the instruction string after `k` passes from the seed `0`. */
  predicate SeedShaped(e: string, k: nat) {
    && Count(e, '0') == Pow(3, k)
    && Count(e, '1') + Pow(2, k) == Pow(3, k)
    && 2 * Count(e, '[') + 1 == Pow(3, k)
    && 2 * Count(e, ']') + 1 == Pow(3, k)
    && 2 * Count(e, '+') + 1 == Pow(3, k)
    && 2 * Count(e, '-') + 1 == Pow(3, k)
  }

  /** One pass takes the counts after `k` passes to the counts after `k + 1`. */
  lemma SeedShapedStep(e: string, k: nat)
    requires SeedShaped(e, k)
    ensures SeedShaped(Rewrite(e), k + 1)
  {
    RewriteCount(e, '0');
    RewriteCount(e, '1');
    RewriteCount(e, '[');
    RewriteCount(e, ']');
    RewriteCount(e, '+');
    RewriteCount(e, '-');
  }

  /** Symbol counts after `n` passes from the seed `0`. */
  lemma {:induction false} SeedCounts(n: nat)
    ensures SeedShaped(Expansion("0", n), n)
  {
    if n == 0 {
      SeedCountBase('0');
      SeedCountBase('1');
      SeedCountBase('[');
      SeedCountBase(']');
      SeedCountBase('+');
      SeedCountBase('-');
    } else {
      SeedCounts(n - 1);
      ExpansionStep("0", n - 1);
      SeedShapedStep(Expansion("0", n - 1), n - 1);
    }
  }

  /** The length of the instruction string grown from the seed `0` in `n` passes. */
  lemma SeedLength(n: nat)
    ensures |Expansion("0", n)| == 4 * Pow(3, n) - Pow(2, n) - 2
  {
    SeedCounts(n);
    assert InAlphabet("0");
    ExpansionAlphabet("0", n);
    LengthByCounts(Expansion("0", n));
  }
}
