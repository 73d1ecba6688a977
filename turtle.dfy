/** The turtle interpreter: a pen with a position and a heading walks the
    instruction string, draws one ray per draw symbol, and saves and restores
    pens on one shared last-in-first-out stack.

    Headings are exact: every change of heading is by plus or minus the branch
    angle, so a heading is the initial heading 3π/2 plus an integer multiple of
    the branch angle, and the model keeps that integer. A position is the list
    of headings of the rays walked from the origin: every ray has the same
    magnitude, so that list fixes the point on the canvas. */
module Turtle {
  import opened Symbols
  import LSystem

  /** The headings of the rays walked from the origin. */
  type Path = seq<int>

  /** A saved pen: a position and a heading offset. */
  datatype Pen = Pen(position: Path, angle: int)

  /** One draw call: a segment from `start` along heading `angle`, ending at `end`. */
  datatype Ray = Ray(start: Path, angle: int, end: Path)

  /** The interpreter's state: the current pen, the saved pens (top last) and the rays drawn so far. */
  datatype State = State(pen: Pen, stack: seq<Pen>, rays: seq<Ray>)

  /** Either the interpretation ran to the end, or it popped an empty stack at index `at`. */
  datatype Outcome = Done(state: State) | Underflow(at: nat)

  /** The pen starts at the origin with heading offset 0 and an empty stack. */
  function Initial(): State {
    State(Pen([], 0), [], [])
  }

  /** The end point of a ray from `position` along heading `angle`. */
  function DrawRay(position: Path, angle: int): (end: Path)
    ensures |end| == |position| + 1
    ensures end[..|position|] == position && end[|position|] == angle
  {
    position + [angle]
  }

  /** The effect of one instruction symbol, found at index `i`. */
  function Step(t: State, c: char, i: nat): (r: Outcome)
    ensures r.Underflow? <==> IsClose(c) && t.stack == []
    ensures r.Underflow? ==> r.at == i
    ensures r.Done? ==> |r.state.stack| == |t.stack| + Delta(c)
    ensures r.Done? && IsOpen(c) ==> r.state.stack == t.stack + [t.pen]
    ensures r.Done? && IsClose(c) ==> r.state.stack == t.stack[..|t.stack| - 1]
    ensures r.Done? && IsDraw(c) ==> r.state.stack == t.stack && r.state.pen == Pen(DrawRay(t.pen.position, t.pen.angle), t.pen.angle)
    ensures r.Done? && c == '[' ==> r.state.pen == Pen(t.pen.position, t.pen.angle + 1)
    ensures r.Done? && c == '+' ==> r.state.pen == t.pen
    ensures r.Done? && c == ']' ==> r.state.pen == Pen(t.stack[|t.stack| - 1].position, t.stack[|t.stack| - 1].angle - 1)
    ensures r.Done? && c == '-' ==> r.state.pen == t.stack[|t.stack| - 1]
    ensures r.Done? ==> r.state.rays == t.rays + if IsDraw(c) then [Ray(t.pen.position, t.pen.angle, r.state.pen.position)] else []
    ensures !IsSymbol(c) ==> r == Done(t)
  {
    if IsDraw(c) then
      var end := DrawRay(t.pen.position, t.pen.angle);
      Done(State(Pen(end, t.pen.angle), t.stack, t.rays + [Ray(t.pen.position, t.pen.angle, end)]))
    else if c == '[' then
      Done(State(Pen(t.pen.position, t.pen.angle + 1), t.stack + [t.pen], t.rays))
    else if c == ']' then
      if t.stack == [] then Underflow(i)
      else
        var saved := t.stack[|t.stack| - 1];
        Done(State(Pen(saved.position, saved.angle - 1), t.stack[..|t.stack| - 1], t.rays))
    else if c == '+' then
      Done(State(t.pen, t.stack + [t.pen], t.rays))
    else if c == '-' then
      if t.stack == [] then Underflow(i)
      else Done(State(t.stack[|t.stack| - 1], t.stack[..|t.stack| - 1], t.rays))
    else
      Done(t)
  }

  /** Interpreting `s` from state `t`, one symbol at a time, stopping at the first underflow. */
  function Run(t: State, s: string): (r: Outcome)
    ensures r.Underflow? ==> r.at < |s| && IsClose(s[r.at])
  {
    if s == [] then Done(t)
    else
      match Run(t, s[..|s| - 1])
      case Underflow(i) => Underflow(i)
      case Done(u) => Step(u, s[|s| - 1], |s| - 1)
  }

  /** Running a longer string continues from the end of the shorter one. */
  lemma RunSnoc(t: State, p: string, c: char)
    ensures Run(t, p + [c]) == match Run(t, p) case Underflow(i) => Underflow(i) case Done(u) => Step(u, c, |p|)
  {
  }

  /** Running one symbol further into `s` takes one more step, labelled with that symbol's index. */
  lemma RunPrefix(t: State, s: string, k: nat)
    requires k < |s|
    ensures Run(t, s[..k + 1]) == match Run(t, s[..k]) case Underflow(i) => Underflow(i) case Done(u) => Step(u, s[k], k)
  {
    assert s[..k + 1][..k] == s[..k];
  }

  /** Offsets an underflow index by the length of the part run before. */
  function Shift(o: Outcome, offset: nat): Outcome {
    match o
    case Underflow(i) => Underflow(offset + i)
    case Done(u) => Done(u)
  }

  /** A step's index only labels its underflow. */
  lemma StepShift(t: State, c: char, j: nat, offset: nat)
    ensures Step(t, c, offset + j) == Shift(Step(t, c, j), offset)
  {
  }

  /** One more symbol keeps two runs related by an index shift. */
  lemma RunSnocShift(t: State, u: State, p: string, q: string, c: char)
    requires |q| <= |p|
    requires Run(t, p) == Shift(Run(u, q), |p| - |q|)
    ensures Run(t, p + [c]) == Shift(Run(u, q + [c]), |p| - |q|)
  {
    RunSnoc(t, p, c);
    RunSnoc(u, q, c);
    match Run(u, q)
    case Underflow(j) =>
    case Done(v) =>
      StepShift(v, c, |q|, |p| - |q|);
  }

  /** Running `a + b` runs `a`, then `b` from where `a` left off. */
  lemma {:induction false} RunConcat(t: State, a: string, b: string)
    ensures Run(t, a + b) == match Run(t, a) case Underflow(i) => Underflow(i) case Done(u) => Shift(Run(u, b), |a|)
  {
    if b == [] {
      assert a + b == a;
    } else {
      var b', c := b[..|b| - 1], b[|b| - 1];
      assert a + b == (a + b') + [c];
      assert b == b' + [c];
      RunConcat(t, a, b');
      match Run(t, a)
      case Underflow(i) =>
        RunSnoc(t, a + b', c);
      case Done(u) =>
        RunSnocShift(t, u, a + b', b', c);
    }
  }

  /** Stack discipline: a run from `t` completes exactly when no prefix closes more pens than the
      stack holds, and then the stack has grown by the depth of `s`. */
  lemma {:induction false} RunStack(t: State, s: string)
    ensures Run(t, s).Done? <==> NeverBelow(s, |t.stack|)
    ensures Run(t, s).Done? ==> |Run(t, s).state.stack| == |t.stack| + Depth(s)
  {
    if s == [] {
      assert s[..0] == [];
    } else {
      var p, c := s[..|s| - 1], s[|s| - 1];
      assert s == p + [c];
      RunStack(t, p);
      RunSnoc(t, p, c);
      NeverBelowConcat(p, [c], |t.stack|);
      assert p[..|p|] == p;
      if Run(t, p).Done? {
        NeverBelowSingle(c, |t.stack| + Depth(p));
      }
      DepthConcat(p, [c]);
      assert [c][..0] == [];
    }
  }

  /** A run that never closes a pen it did not open leaves the saved pens below it untouched. */
  lemma {:induction false} RunKeepsStack(t: State, s: string)
    requires NeverBelow(s, 0)
    ensures Run(t, s).Done?
    ensures |t.stack| <= |Run(t, s).state.stack|
    ensures Run(t, s).state.stack[..|t.stack|] == t.stack
  {
    if s == [] {
      assert t.stack[..|t.stack|] == t.stack;
    } else {
      var p, c := s[..|s| - 1], s[|s| - 1];
      assert s == p + [c];
      NeverBelowConcat(p, [c], 0);
      NeverBelowSingle(c, Depth(p));
      RunKeepsStack(t, p);
      RunStack(t, p);
      RunSnoc(t, p, c);
      var u := Run(t, p).state;
      if IsClose(c) {
        assert |u.stack| == |t.stack| + Depth(p) > |t.stack|;
        assert u.stack[..|u.stack| - 1][..|t.stack|] == u.stack[..|t.stack|];
      } else if IsOpen(c) {
        assert (u.stack + [u.pen])[..|t.stack|] == u.stack[..|t.stack|];
      }
    }
  }

  /** Exactly one ray per draw symbol; rays already drawn are kept, and every ray ends where `DrawRay` puts it. */
  lemma {:induction false} RunRays(t: State, s: string)
    requires forall j :: 0 <= j < |t.rays| ==> t.rays[j].end == DrawRay(t.rays[j].start, t.rays[j].angle)
    ensures Run(t, s).Done? ==> |Run(t, s).state.rays| == |t.rays| + Draws(s)
    ensures Run(t, s).Done? ==> Run(t, s).state.rays[..|t.rays|] == t.rays
    ensures Run(t, s).Done? ==> forall j :: 0 <= j < |Run(t, s).state.rays| ==>
      Run(t, s).state.rays[j].end == DrawRay(Run(t, s).state.rays[j].start, Run(t, s).state.rays[j].angle)
  {
    if s == [] {
      assert t.rays[..|t.rays|] == t.rays;
    } else {
      var p, c := s[..|s| - 1], s[|s| - 1];
      assert s == p + [c];
      RunRays(t, p);
      RunSnoc(t, p, c);
      CountConcat(p, [c], '0');
      CountConcat(p, [c], '1');
      assert [c][..0] == [];
      if Run(t, p).Done? && Run(t, s).Done? {
        var u, v := Run(t, p).state, Run(t, s).state;
        assert v.rays[..|u.rays|] == u.rays;
        assert v.rays[..|t.rays|] == u.rays[..|t.rays|];
      }
    }
  }

  /** A branch `[s]` around a well-nested `s` returns to the saved position and pops the saved pen,
      but its heading ends one branch angle below the heading before the branch. */
  lemma BranchRestores(t: State, s: string)
    requires WellNested(s)
    ensures Run(t, "[" + s + "]").Done?
    ensures Run(t, "[" + s + "]").state.pen == Pen(t.pen.position, t.pen.angle - 1)
    ensures Run(t, "[" + s + "]").state.stack == t.stack
  {
    var t1 := State(Pen(t.pen.position, t.pen.angle + 1), t.stack + [t.pen], t.rays);
    assert Run(t, "[") == Done(t1) by { RunSnoc(t, [], '['); }
    RunKeepsStack(t1, s);
    RunStack(t1, s);
    var u := Run(t1, s).state;
    assert u.stack == t.stack + [t.pen];
    RunConcat(t, "[", s);
    RunConcat(t, "[" + s, "]");
    assert Run(u, "]") == Step(u, ']', 0) by { RunSnoc(u, [], ']'); }
  }

  /** A draw right after `[` heads one branch angle further round than the pen before the branch. */
  lemma OpenThenDraw(t: State, d: char)
    requires IsDraw(d)
    ensures Run(t, "[" + [d]).Done?
    ensures Run(t, "[" + [d]).state.rays == t.rays + [Ray(t.pen.position, t.pen.angle + 1, DrawRay(t.pen.position, t.pen.angle + 1))]
  {
    var t1 := State(Pen(t.pen.position, t.pen.angle + 1), t.stack + [t.pen], t.rays);
    assert Run(t, "[") == Done(t1) by { RunSnoc(t, [], '['); }
    RunSnoc(t, "[", d);
  }

  /** A draw right after `+` keeps the heading of the pen it saved. */
  lemma MarkThenDraw(t: State, d: char)
    requires IsDraw(d)
    ensures Run(t, "+" + [d]).Done?
    ensures Run(t, "+" + [d]).state.rays == t.rays + [Ray(t.pen.position, t.pen.angle, DrawRay(t.pen.position, t.pen.angle))]
  {
    var t1 := State(t.pen, t.stack + [t.pen], t.rays);
    assert Run(t, "+") == Done(t1) by { RunSnoc(t, [], '+'); }
    RunSnoc(t, "+", d);
  }

  /** A mark `+s-` around a well-nested `s` restores the saved pen exactly and pops it. */
  lemma MarkRestores(t: State, s: string)
    requires WellNested(s)
    ensures Run(t, "+" + s + "-").Done?
    ensures Run(t, "+" + s + "-").state.pen == t.pen
    ensures Run(t, "+" + s + "-").state.stack == t.stack
  {
    var t1 := State(t.pen, t.stack + [t.pen], t.rays);
    assert Run(t, "+") == Done(t1) by { RunSnoc(t, [], '+'); }
    RunKeepsStack(t1, s);
    RunStack(t1, s);
    var u := Run(t1, s).state;
    assert u.stack == t.stack + [t.pen];
    RunConcat(t, "+", s);
    RunConcat(t, "+" + s, "-");
    assert Run(u, "-") == Step(u, '-', 0) by { RunSnoc(u, [], '-'); }
  }

  /** On a well-nested string the interpreter never pops an empty stack, ends with an empty stack,
      and draws exactly one ray per draw symbol. */
  lemma WellNestedRun(s: string)
    requires WellNested(s)
    ensures Run(Initial(), s).Done?
    ensures Run(Initial(), s).state.stack == []
    ensures |Run(Initial(), s).state.rays| == Draws(s)
  {
    RunStack(Initial(), s);
    RunRays(Initial(), s);
  }

  /** An underflow at index `i` ends the run: the rest of the string is never looked at. */
  lemma UnderflowStops(t: State, s: string, k: nat)
    requires k <= |s|
    requires Run(t, s[..k]).Underflow?
    ensures Run(t, s) == Run(t, s[..k])
  {
    assert s == s[..k] + s[k..];
    RunConcat(t, s[..k], s[k..]);
  }

  /** An underflow at index `at` is a close symbol met with an empty stack, after the prefix before
      it ran to completion: the rays of that prefix are the ones drawn before the run stopped. */
  lemma {:induction false} UnderflowAt(t: State, s: string)
    requires Run(t, s).Underflow?
    ensures Run(t, s[..Run(t, s).at]).Done?
    ensures Run(t, s[..Run(t, s).at]).state.stack == []
  {
    var p, c := s[..|s| - 1], s[|s| - 1];
    assert s == p + [c];
    RunSnoc(t, p, c);
    if Run(t, p).Underflow? {
      UnderflowAt(t, p);
      assert s[..Run(t, s).at] == p[..Run(t, p).at];
    } else {
      assert s[..Run(t, s).at] == p;
    }
  }

  /** Interprets `instructions`: the loop keeps the current position and heading in local variables
      and the saved pens on a stack, and collects the rays it draws. */
  method DrawTree(instructions: string) returns (r: Outcome)
    ensures r == Run(Initial(), instructions)
    ensures r.Done? <==> NeverBelow(instructions, 0)
    ensures WellNested(instructions) ==> r.Done? && r.state.stack == [] && |r.state.rays| == Draws(instructions)
    ensures r.Underflow? ==> r.at < |instructions| && IsClose(instructions[r.at])
    ensures r.Underflow? ==> Run(Initial(), instructions[..r.at]).Done? && Run(Initial(), instructions[..r.at]).state.stack == []
  {
    var position: Path := [];
    var angle := 0;
    var turtleStack: seq<Pen> := [];
    var rays: seq<Ray> := [];
    for i := 0 to |instructions|
      invariant Run(Initial(), instructions[..i]) == Done(State(Pen(position, angle), turtleStack, rays))
    {
      var c := instructions[i];
      ghost var before := State(Pen(position, angle), turtleStack, rays);
      match c {
        case '0' | '1' =>
          var end := DrawRay(position, angle);
          rays := rays + [Ray(position, angle, end)];
          position := end;
        case '[' =>
          turtleStack := turtleStack + [Pen(position, angle)];
          angle := angle + 1;
        case ']' =>
          if turtleStack == [] {
            r := Underflow(i);
            RunPrefix(Initial(), instructions, i);
            UnderflowStops(Initial(), instructions, i + 1);
            RunStack(Initial(), instructions);
            UnderflowAt(Initial(), instructions);
            return;
          }
          var oldPen := turtleStack[|turtleStack| - 1];
          turtleStack := turtleStack[..|turtleStack| - 1];
          position, angle := oldPen.position, oldPen.angle - 1;
        case '+' =>
          turtleStack := turtleStack + [Pen(position, angle)];
        case '-' =>
          if turtleStack == [] {
            r := Underflow(i);
            RunPrefix(Initial(), instructions, i);
            UnderflowStops(Initial(), instructions, i + 1);
            RunStack(Initial(), instructions);
            UnderflowAt(Initial(), instructions);
            return;
          }
          var oldPen := turtleStack[|turtleStack| - 1];
          turtleStack := turtleStack[..|turtleStack| - 1];
          position, angle := oldPen.position, oldPen.angle;
        case _ =>
      }
      RunPrefix(Initial(), instructions, i);
    }
    r := Done(State(Pen(position, angle), turtleStack, rays));
    assert instructions[..|instructions|] == instructions;
    RunStack(Initial(), instructions);
    if WellNested(instructions) {
      WellNestedRun(instructions);
    }
  }

  /** Drawing any expansion of a well-nested seed never underflows, empties the stack and draws one
      ray per draw symbol of the expansion. */
  lemma ExpandedTreeDraws(seed: string, n: nat)
    requires WellNested(seed)
    ensures Run(Initial(), LSystem.Expansion(seed, n)).Done?
    ensures Run(Initial(), LSystem.Expansion(seed, n)).state.stack == []
    ensures |Run(Initial(), LSystem.Expansion(seed, n)).state.rays| == Draws(LSystem.Expansion(seed, n))
  {
    LSystem.ExpansionNested(seed, n);
    WellNestedRun(LSystem.Expansion(seed, n));
  }

  /** The tree grown from the seed `0` in `n` passes draws 2·3^n − 2^n rays. */
  lemma SeedTreeRays(n: nat)
    ensures Run(Initial(), LSystem.Expansion("0", n)).Done?
    ensures |Run(Initial(), LSystem.Expansion("0", n)).state.rays| == 2 * LSystem.Pow(3, n) - LSystem.Pow(2, n)
  {
    assert WellNested("0") by {
      NeverBelowSingle('0', 0);
      assert "0"[..0] == [];
    }
    ExpandedTreeDraws("0", n);
    LSystem.SeedCounts(n);
  }
}
