/** doAction: an action string such as "k a|m l" is split on '|' and every
    token becomes at most one input event. The events robotgo would send are
    returned as a trace of steps. Go indexes the trimmed token without a
    length check, so some tokens panic; such a run ends with `crashed` set and
    the steps sent before the panic. */
module Actions {
  import opened GoStrings

  /** One input event sent through robotgo. */
  datatype Step = KeyTap(key: char) | ClickLeft | ClickRight

  /** What one token of an action string does. */
  datatype TokenOutcome =
    | NoStep           // shorter than 2 bytes, or an unknown action: diagnostic only
    | Emit(step: Step) // one key tap or mouse click
    | Crash            // a[0] or a[1] out of range after trimming: the program dies

  /** The events sent by one doAction call, in order, and whether it panicked. */
  datatype Run = Run(steps: seq<Step>, crashed: bool)

  /** The loop body of doAction for one token. The length test is made on the
      token as written, the dispatch on the token with white space trimmed. */
  function TokenStep(token: string): TokenOutcome
  {
    if |token| < 2 then NoStep
    else
      var a := TrimSpace(token);
      if |a| == 0 then Crash
      else if a[0] == 'k' then
        if |a| < 2 then Crash else Emit(KeyTap(a[1]))
      else if a[0] == 'm' then
        if |a| < 2 then Crash
        else if a[1] == 'l' then Emit(ClickLeft)
        else if a[1] == 'r' then Emit(ClickRight)
        else NoStep
      else NoStep
  }

  /** A token panics exactly when its raw length passes the length test but
      its trimmed form is empty, or is a lone 'k' or 'm'; that only happens
      when trimming has removed white space from one of its ends. What it
      sends is decided by the first two bytes of the trimmed token, in both
      directions: a key tap sends the second byte, whatever it is. */
  lemma TokenStepMeaning(token: string)
    ensures TokenStep(token).Crash? <==>
              && 2 <= |token|
              && (|TrimSpace(token)| == 0 ||
                  (|TrimSpace(token)| == 1 && (TrimSpace(token)[0] == 'k' || TrimSpace(token)[0] == 'm')))
    ensures |token| < 2 ==> TokenStep(token) == NoStep
    ensures |TrimSpace(token)| >= 2 && TrimSpace(token)[0] == 'k' ==>
              TokenStep(token) == Emit(KeyTap(TrimSpace(token)[1]))
    ensures |TrimSpace(token)| >= 2 && TrimSpace(token)[0] == 'm' && TrimSpace(token)[1] == 'l' ==>
              TokenStep(token) == Emit(ClickLeft)
    ensures |TrimSpace(token)| >= 2 && TrimSpace(token)[0] == 'm' && TrimSpace(token)[1] == 'r' ==>
              TokenStep(token) == Emit(ClickRight)
    ensures |TrimSpace(token)| >= 2 && TrimSpace(token)[0] == 'm' &&
            TrimSpace(token)[1] != 'l' && TrimSpace(token)[1] != 'r' ==>
              TokenStep(token) == NoStep
    ensures 2 <= |token| && |TrimSpace(token)| >= 1 &&
            TrimSpace(token)[0] != 'k' && TrimSpace(token)[0] != 'm' ==>
              TokenStep(token) == NoStep
    ensures TokenStep(token).Crash? ==> 2 <= |token| && |TrimSpace(token)| < |token|
    ensures TokenStep(token).Crash? ==> IsSpace(token[0]) || IsSpace(token[|token| - 1])
    ensures TokenStep(token).Emit? ==> 2 <= |TrimSpace(token)| <= |token|
    ensures TokenStep(token).Emit? && TokenStep(token).step.KeyTap? ==>
              TrimSpace(token)[0] == 'k' && TokenStep(token).step.key == TrimSpace(token)[1]
    ensures TokenStep(token).Emit? && !TokenStep(token).step.KeyTap? ==>
              && TrimSpace(token)[0] == 'm'
              && TrimSpace(token)[1] == (if TokenStep(token).step.ClickLeft? then 'l' else 'r')
  {
  }

  /** The outcome of each token, in order. */
  function TokenOutcomes(tokens: seq<string>): (outcomes: seq<TokenOutcome>)
    ensures |outcomes| == |tokens|
    ensures forall i :: 0 <= i < |tokens| ==> outcomes[i] == TokenStep(tokens[i])
  {
    seq(|tokens|, i requires 0 <= i < |tokens| => TokenStep(tokens[i]))
  }

  /** The outcomes performed in order; a crash ends the run. */
  function Perform(outcomes: seq<TokenOutcome>): Run
    decreases |outcomes|
  {
    if outcomes == [] then Run([], false)
    else
      var prev := Perform(outcomes[..|outcomes| - 1]);
      if prev.crashed then prev
      else
        match outcomes[|outcomes| - 1]
        case NoStep => prev
        case Emit(s) => Run(prev.steps + [s], false)
        case Crash => Run(prev.steps, true)
  }

  /** doAction on a list of tokens (the fields of the action string). */
  function Interpret(tokens: seq<string>): Run
  {
    Perform(TokenOutcomes(tokens))
  }

  /** Once a run has crashed, later outcomes change nothing. */
  lemma {:induction false} PerformStaysCrashed(outcomes: seq<TokenOutcome>, more: seq<TokenOutcome>)
    requires Perform(outcomes).crashed
    ensures Perform(outcomes + more) == Perform(outcomes)
    decreases |more|
  {
    if more == [] {
      assert outcomes + more == outcomes;
    } else {
      var front := more[..|more| - 1];
      assert (outcomes + more)[..|outcomes + more| - 1] == outcomes + front;
      PerformStaysCrashed(outcomes, front);
    }
  }

  /** Running two lists of tokens one after the other: the steps of the first
      come first, and the second runs only if the first did not crash. */
  lemma {:induction false} PerformAppend(first: seq<TokenOutcome>, second: seq<TokenOutcome>)
    ensures Perform(first + second) ==
              if Perform(first).crashed then Perform(first)
              else Run(Perform(first).steps + Perform(second).steps, Perform(second).crashed)
    decreases |second|
  {
    if Perform(first).crashed {
      PerformStaysCrashed(first, second);
    } else if second == [] {
      assert first + second == first;
      assert Perform(first).steps + [] == Perform(first).steps;
    } else {
      var front := second[..|second| - 1];
      assert (first + second)[..|first + second| - 1] == first + front;
      PerformAppend(first, front);
    }
  }

  /** A run crashes exactly when some token crashes. */
  lemma {:induction false} PerformCrashes(outcomes: seq<TokenOutcome>)
    ensures Perform(outcomes).crashed <==> exists i :: 0 <= i < |outcomes| && outcomes[i].Crash?
    decreases |outcomes|
  {
    if outcomes != [] {
      var front := outcomes[..|outcomes| - 1];
      PerformCrashes(front);
      if Perform(outcomes).crashed && !Perform(front).crashed {
        assert outcomes[|outcomes| - 1].Crash?;
      }
      if exists i :: 0 <= i < |front| && front[i].Crash? {
        var i :| 0 <= i < |front| && front[i].Crash?;
        assert outcomes[i].Crash?;
      }
    }
  }

  /** The tokens before the first crashing one run in full, and nothing
      after it runs. */
  lemma StopsAtFirstCrash(outcomes: seq<TokenOutcome>, k: nat)
    requires k < |outcomes| && outcomes[k].Crash?
    requires forall j :: 0 <= j < k ==> !outcomes[j].Crash?
    ensures Perform(outcomes) == Run(Perform(outcomes[..k]).steps, true)
  {
    var front := outcomes[..k];
    var upTo := outcomes[..k + 1];
    assert !Perform(front).crashed by {
      PerformCrashes(front);
    }
    assert Perform(upTo) == Run(Perform(front).steps, true) by {
      assert upTo[..|upTo| - 1] == front;
    }
    assert outcomes == upTo + outcomes[k + 1..];
    PerformStaysCrashed(upTo, outcomes[k + 1..]);
  }

  /** Every step sent is the step of some emitting token, and no token sends
      more than one. */
  lemma {:induction false} PerformSendsEmitted(outcomes: seq<TokenOutcome>)
    ensures |Perform(outcomes).steps| <= |outcomes|
    ensures forall s :: s in Perform(outcomes).steps ==> Emit(s) in outcomes
    decreases |outcomes|
  {
    if outcomes != [] {
      var front := outcomes[..|outcomes| - 1];
      PerformSendsEmitted(front);
      assert forall o :: o in front ==> o in outcomes;
    }
  }

  /** A run of tokens that all emit sends exactly those steps, in order. */
  lemma {:induction false} PerformEmits(outcomes: seq<TokenOutcome>, steps: seq<Step>)
    requires |outcomes| == |steps|
    requires forall i :: 0 <= i < |steps| ==> outcomes[i] == Emit(steps[i])
    ensures Perform(outcomes) == Run(steps, false)
    decreases |steps|
  {
    if steps != [] {
      var n := |steps| - 1;
      PerformEmits(outcomes[..n], steps[..n]);
      assert steps[..n] + [steps[n]] == steps;
    }
  }

  /** The fields of an action string are interpreted one by one, so the
      steps of a concatenation are those of each part, in order. */
  lemma InterpretAppend(first: seq<string>, second: seq<string>)
    ensures Interpret(first + second) ==
              if Interpret(first).crashed then Interpret(first)
              else Run(Interpret(first).steps + Interpret(second).steps, Interpret(second).crashed)
  {
    var a, b, c := TokenOutcomes(first), TokenOutcomes(second), TokenOutcomes(first + second);
    forall i | 0 <= i < |c| ensures c[i] == (a + b)[i] {
      if i < |first| {
        assert (first + second)[i] == first[i];
      } else {
        assert (first + second)[i] == second[i - |first|];
      }
    }
    assert c == a + b;
    PerformAppend(a, b);
  }

  /** A token with no white space at either end never crashes: every panic
      of doAction comes from white space around a token. */
  lemma TrimmedTokensNeverCrash(tokens: seq<string>)
    requires forall i :: 0 <= i < |tokens| ==> tokens[i] == TrimSpace(tokens[i])
    ensures !Interpret(tokens).crashed
  {
    forall i | 0 <= i < |tokens| ensures !TokenStep(tokens[i]).Crash? {
      TokenStepMeaning(tokens[i]);
    }
    PerformCrashes(TokenOutcomes(tokens));
  }

  // ---------------------------------------------------------------------
  // Writing steps as an action string
  // ---------------------------------------------------------------------

  /** The token that performs one step: "k<key>", "ml" or "mr". */
  function StepText(step: Step): (t: string)
    ensures |t| == 2
  {
    match step
    case KeyTap(c) => ['k', c]
    case ClickLeft => "ml"
    case ClickRight => "mr"
  }

  /** A key doAction can tap from an action string without a crash and
      without ending its token. */
  predicate Typable(step: Step)
  {
    step.KeyTap? ==> !IsSpace(step.key) && step.key != '|'
  }

  /** The action string that performs the given steps. */
  function Render(steps: seq<Step>): (s: string)
  {
    Join(seq(|steps|, i requires 0 <= i < |steps| => StepText(steps[i])), '|')
  }

  /** The action string of typable steps holds no newline, and no ':'
      unless a step taps ':'; so it fits in one line of a config file. */
  lemma RenderAvoids(steps: seq<Step>)
    requires forall i :: 0 <= i < |steps| ==> Typable(steps[i])
    requires forall i :: 0 <= i < |steps| ==> steps[i] != KeyTap(':')
    ensures ':' !in Render(steps) && '\n' !in Render(steps)
  {
    var texts := seq(|steps|, i requires 0 <= i < |steps| => StepText(steps[i]));
    forall i | 0 <= i < |texts| ensures ':' !in texts[i] && '\n' !in texts[i] {
      assert texts[i] == StepText(steps[i]);
    }
    JoinAvoids(texts, '|', ':');
    JoinAvoids(texts, '|', '\n');
  }

  lemma StepTextStep(step: Step)
    requires Typable(step)
    ensures TokenStep(StepText(step)) == Emit(step)
  {
    var t := StepText(step);
    assert !IsSpace(t[0]) && !IsSpace(t[1]);
  }

  /** Rendering steps and running the action string performs exactly those
      steps, in order, without a crash. */
  lemma RenderRoundTrip(steps: seq<Step>)
    requires forall i :: 0 <= i < |steps| ==> Typable(steps[i])
    ensures Interpret(Split(Render(steps), '|')) == Run(steps, false)
  {
    var texts := seq(|steps|, i requires 0 <= i < |steps| => StepText(steps[i]));
    if steps == [] {
      assert Split("", '|') == [""];
      assert TokenOutcomes([""]) == [NoStep];
      assert [NoStep][..0] == [];
    } else {
      forall i | 0 <= i < |texts| ensures '|' !in texts[i] {
        assert texts[i][0] == 'k' || texts[i][0] == 'm';
      }
      SplitJoin(texts, '|');
      var outcomes := TokenOutcomes(texts);
      forall i | 0 <= i < |steps| ensures outcomes[i] == Emit(steps[i]) {
        StepTextStep(steps[i]);
      }
      PerformEmits(outcomes, steps);
    }
  }

  /** A key tap sends the second byte of the trimmed token, even a space. */
  lemma KeyTapSendsSecondByte(x: char)
    requires !IsSpace(x)
    ensures TokenStep(['k', ' ', x]) == Emit(KeyTap(' '))
  {
    var t := ['k', ' ', x];
    assert !IsSpace(t[0]) && !IsSpace(t[|t| - 1]);
    var a := TrimSpace(t);
    assert a == t;
  }

  /** A mouse token whose second byte is a space clicks nothing. */
  lemma MouseNeedsButtonSecond(y: char)
    requires !IsSpace(y)
    ensures TokenStep(['m', ' ', y]) == NoStep
  {
    var t := ['m', ' ', y];
    assert !IsSpace(t[0]) && !IsSpace(t[|t| - 1]);
    var a := TrimSpace(t);
    assert a == t;
  }

  lemma InterpretSingle(t: string, o: TokenOutcome)
    requires TokenStep(t) == o && !o.Crash?
    ensures o.NoStep? ==> Interpret([t]) == Run([], false)
    ensures o.Emit? ==> Interpret([t]) == Run([o.step], false)
  {
    var outs := TokenOutcomes([t]);
    assert outs == [o];
    assert outs[..0] == [];
    assert Perform(outs[..0]) == Run([], false);
    if o.Emit? {
      assert [] + [o.step] == [o.step];
    }
  }

  lemma InterpretSpacedTokens(x: char, y: char)
    requires !IsSpace(x) && !IsSpace(y)
    ensures Interpret([['k', ' ', x], ['m', ' ', y]]) == Run([KeyTap(' ')], false)
  {
    var t1, t2 := ['k', ' ', x], ['m', ' ', y];
    KeyTapSendsSecondByte(x);
    MouseNeedsButtonSecond(y);
    InterpretSingle(t1, Emit(KeyTap(' ')));
    InterpretSingle(t2, NoStep);
    InterpretAppend([t1], [t2]);
    assert [t1] + [t2] == [t1, t2];
    assert [KeyTap(' ')] + [] == [KeyTap(' ')];
  }

  /** So "k a|m l" taps one space and clicks nothing. */
  lemma SpacedActions(x: char, y: char)
    requires !IsSpace(x) && !IsSpace(y) && x != '|' && y != '|'
    ensures Interpret(Split(['k', ' ', x, '|', 'm', ' ', y], '|')) == Run([KeyTap(' ')], false)
  {
    var t1, t2 := ['k', ' ', x], ['m', ' ', y];
    assert ['k', ' ', x, '|', 'm', ' ', y] == t1 + ['|'] + t2;
    SplitPair(t1, '|', t2);
    InterpretSpacedTokens(x, y);
  }

  // ---------------------------------------------------------------------
  // doAction
  // ---------------------------------------------------------------------

  /** One step of the run over the tokens that does not crash. */
  lemma PerformStep(outcomes: seq<TokenOutcome>, k: nat, steps: seq<Step>)
    requires k < |outcomes| && Perform(outcomes[..k]) == Run(steps, false)
    ensures outcomes[k].NoStep? ==> Perform(outcomes[..k + 1]) == Run(steps, false)
    ensures outcomes[k].Emit? ==> Perform(outcomes[..k + 1]) == Run(steps + [outcomes[k].step], false)
  {
    var prefix := outcomes[..k + 1];
    assert prefix[..|prefix| - 1] == outcomes[..k];
  }

  /** Once a prefix of the outcomes has crashed, the rest change nothing. */
  lemma {:induction false} PerformCrashedPrefix(outcomes: seq<TokenOutcome>, k: nat)
    requires k <= |outcomes| && Perform(outcomes[..k]).crashed
    ensures Perform(outcomes) == Perform(outcomes[..k])
    decreases |outcomes| - k
  {
    if k == |outcomes| {
      assert outcomes[..k] == outcomes;
    } else {
      var front := outcomes[..|outcomes| - 1];
      assert front[..k] == outcomes[..k];
      PerformCrashedPrefix(front, k);
    }
  }

  /** A crashing token ends the run with the steps sent before it. */
  lemma PerformCrashStep(outcomes: seq<TokenOutcome>, k: nat, steps: seq<Step>)
    requires k < |outcomes| && Perform(outcomes[..k]) == Run(steps, false)
    requires outcomes[k].Crash?
    ensures Perform(outcomes) == Run(steps, true)
  {
    var prefix := outcomes[..k + 1];
    assert prefix[..|prefix| - 1] == outcomes[..k];
    assert Perform(prefix) == Run(steps, true);
    PerformCrashedPrefix(outcomes, k + 1);
  }

  /** doAction: splits the action string on '|' and sends each token's
      event in turn; a panicking token ends the call. */
  method DoAction(configAction: string) returns (run: Run)
    ensures run == Interpret(Split(configAction, '|'))
  {
    var actions := Split(configAction, '|');
    ghost var outcomes := TokenOutcomes(actions);
    var steps: seq<Step> := [];
    var i := 0;
    while i < |actions|
      invariant 0 <= i <= |actions|
      invariant Perform(outcomes[..i]) == Run(steps, false)
    {
      var action := actions[i];
      PerformStep(outcomes, i, steps);
      if |action| < 2 {
        i := i + 1;
        continue;
      }
      var a := TrimSpace(action);
      if |a| == 0 || ((a[0] == 'k' || a[0] == 'm') && |a| < 2) {
        PerformCrashStep(outcomes, i, steps);
        return Run(steps, true);
      }
      if a[0] == 'k' {
        steps := steps + [KeyTap(a[1])];
      } else if a[0] == 'm' {
        if a[1] == 'l' {
          steps := steps + [ClickLeft];
        } else if a[1] == 'r' {
          steps := steps + [ClickRight];
        }
      }
      i := i + 1;
    }
    assert outcomes[..i] == outcomes;
    run := Run(steps, false);
  }
}
