/** The joint speed regulator of robot_speed, over the reals. */
module Regulator {

  const DOF: nat := 6
  const CLOSE: real := 0.0001
  const AT_REST: seq<real> := [0.0, 0.0, 0.0, 0.0, 0.0, 0.0]

  const K_P: real := 0.7
  const K_I: real := 0.005
  const K_D: real := 1.1

  function NewSpeed(err: real, prevErr: real, prevSpeed: real): real {
    var p := K_P * err;
    var i := K_I * prevSpeed;
    var d := (err - prevErr * K_D) / K_D;
    p + i + d
  }

  function Abs(x: real): real {
    if x < 0.0 then -x else x
  }

  /** The speed commanded after these errors, from rest. */
  function Speed(errs: seq<real>): real {
    if errs == [] then 0.0
    else
      var n := |errs| - 1;
      NewSpeed(errs[n], if n == 0 then 0.0 else errs[n - 1], Speed(errs[..n]))
  }

  ghost predicate Within(errs: seq<real>, e: real) {
    forall i | 0 <= i < |errs| :: Abs(errs[i]) <= e
  }

  lemma StepBound(err: real, prevErr: real, prevSpeed: real, e: real)
    requires Abs(err) <= e && Abs(prevErr) <= e && Abs(prevSpeed) <= 2.63 * e
    ensures Abs(NewSpeed(err, prevErr, prevSpeed)) <= 2.63 * e
  {
    assert NewSpeed(err, prevErr, prevSpeed) == K_P * err + K_I * prevSpeed + err / K_D - prevErr;
    assert Abs(err / K_D) <= e / K_D;
  }

  /** Over any run of errors no larger than e, no commanded speed exceeds 2.63 e. */
  lemma {:induction false} SpeedBound(errs: seq<real>, e: real)
    requires Within(errs, e) && e >= 0.0
    ensures Abs(Speed(errs)) <= 2.63 * e
  {
    if errs != [] {
      var n := |errs| - 1;
      SpeedBound(errs[..n], e);
      StepBound(errs[n], if n == 0 then 0.0 else errs[n - 1], Speed(errs[..n]), e);
    }
  }

  // ----- The closed form -----

  function Power(base: real, n: nat): real {
    if n == 0 then 1.0 else base * Power(base, n - 1)
  }

  /** What error k adds to the speed of its own cycle. */
  function Share(errs: seq<real>, k: nat): real
    requires k < |errs|
  {
    (0.7 + 1.0 / 1.1) * errs[k] - if k == 0 then 0.0 else errs[k - 1]
  }

  /** The first m errors' shares, each having lost all but 0.005 of itself in every cycle from its
      own to cycle n. */
  function Remaining(errs: seq<real>, n: nat, m: nat): real
    requires m <= |errs| && m <= n + 1
  {
    if m == 0 then 0.0 else Remaining(errs, n, m - 1) + Power(0.005, n - (m - 1)) * Share(errs, m - 1)
  }

  lemma {:induction false} OneCycleLater(errs: seq<real>, n: nat, m: nat)
    requires m <= |errs| && m <= n + 1
    ensures Remaining(errs, n + 1, m) == 0.005 * Remaining(errs, n, m)
  {
    if m > 0 {
      OneCycleLater(errs, n, m - 1);
      var p, share := Power(0.005, n - (m - 1)), Share(errs, m - 1);
      assert Power(0.005, n + 1 - (m - 1)) == 0.005 * p;
      assert (0.005 * p) * share == 0.005 * (p * share);
    }
  }

  lemma {:induction false} SameShares(errs: seq<real>, rest: seq<real>, n: nat, m: nat)
    requires m <= |rest| <= |errs| && m <= n + 1 && rest == errs[..|rest|]
    ensures Remaining(errs, n, m) == Remaining(rest, n, m)
  {
    if m > 0 {
      SameShares(errs, rest, n, m - 1);
    }
  }

  /** After errors e_0 to e_n, from rest, the speed is the sum over k of 0.005^(n-k) times
      (0.7 + 1/1.1) e_k - e_(k-1), where e_(-1) is 0. */
  lemma {:induction false} SpeedIsSum(errs: seq<real>)
    requires errs != []
    ensures Speed(errs) == Remaining(errs, |errs| - 1, |errs|)
  {
    var n := |errs| - 1;
    var err, prev := errs[n], if n == 0 then 0.0 else errs[n - 1];
    if n > 0 {
      SpeedIsSum(errs[..n]);
      OneCycleLater(errs[..n], n - 1, n);
      SameShares(errs, errs[..n], n, n);
    }
    assert Power(0.005, 0) == 1.0;
    assert NewSpeed(err, prev, Speed(errs[..n])) == Share(errs, n) + 0.005 * Speed(errs[..n]);
  }

  /** The speed a constant error settles on. */
  function Limit(err: real): real {
    (K_P + 1.0 / K_D - 1.0) / (1.0 - K_I) * err
  }

  function Constant(err: real, n: nat): (errs: seq<real>)
    ensures |errs| == n && forall i | 0 <= i < n :: errs[i] == err
  {
    seq(n, _ => err)
  }

  lemma OneStepCloser(err: real, speed: real)
    ensures NewSpeed(err, err, speed) - Limit(err) == K_I * (speed - Limit(err))
  {
    assert NewSpeed(err, err, speed) == (K_P + 1.0 / K_D - 1.0) * err + K_I * speed;
    assert (1.0 - K_I) * Limit(err) == (K_P + 1.0 / K_D - 1.0) * err;
  }

  /** Under a constant error the distance to the limit shrinks by exactly K_I a cycle, so after n
      further cycles by exactly the n-th power. */
  lemma {:induction false} ConstantErrorConverges(err: real, n: nat)
    ensures Speed(Constant(err, n + 1)) - Limit(err) == Power(K_I, n) * (Speed(Constant(err, 1)) - Limit(err))
  {
    if n > 0 {
      ConstantErrorConverges(err, n - 1);
      assert Constant(err, n + 1)[..n] == Constant(err, n);
      OneStepCloser(err, Speed(Constant(err, n)));
      var start := Speed(Constant(err, 1)) - Limit(err);
      assert K_I * (Power(K_I, n - 1) * start) == Power(K_I, n) * start;
    }
  }

  // ----- The control loop -----

  /** close_vec */
  method CloseVec(actual: seq<real>, target: seq<real>, epsilon: real) returns (close: bool)
    ensures close <==> IsClose(actual, target, epsilon)
  {
    if |actual| != |target| {
      return false;
    }
    for c := 0 to |actual|
      invariant forall k | 0 <= k < c :: Abs(actual[k] - target[k]) <= epsilon
    {
      if Abs(actual[c] - target[c]) > epsilon {
        return false;
      }
    }
    return true;
  }

  ghost predicate IsClose(actual: seq<real>, target: seq<real>, epsilon: real) {
    |actual| == |target| && forall k | 0 <= k < |actual| :: Abs(actual[k] - target[k]) <= epsilon
  }

  ghost predicate Vectors(states: seq<seq<real>>) {
    forall k | 0 <= k < |states| :: |states[k]| == DOF
  }

  /** Joint i's errors over the first n states read. */
  ghost function Errors(target: seq<real>, states: seq<seq<real>>, i: nat, n: nat): (errs: seq<real>)
    requires |target| == DOF && Vectors(states) && i < DOF && n <= |states|
    ensures |errs| == n && forall k | 0 <= k < n :: errs[k] == target[i] - states[k][i]
  {
    seq(n, k requires 0 <= k < n => target[i] - states[k][i])
  }

  /** main's loop, reading the given states until one is close to the target. */
  method Regulate(target: seq<real>, states: seq<seq<real>>) returns (commands: seq<seq<real>>, reached: bool)
    requires |target| == DOF && Vectors(states)
    ensures |commands| <= |states| && Vectors(commands)
    ensures !reached ==> |commands| == |states|
    ensures reached ==> commands != [] && commands[|commands| - 1] == AT_REST
    ensures forall k | 0 <= k < |commands| ::
              IsClose(states[k], target, 0.0001) <==> reached && k == |commands| - 1
    ensures Follows(target, states, commands, reached)
    ensures forall k, i | 0 <= k < |commands| && 0 <= i < DOF && !(reached && k == |commands| - 1) ::
              commands[k][i] == Remaining(Errors(target, states, i, k + 1), k, k + 1)
    ensures forall i, e | ErrorsWithin(target, states, i, |commands|, e) :: CommandsWithin(commands, i, 2.63 * e)
  {
    commands, reached := [], false;
    var w := AT_REST;
    var prevErr := AT_REST;
    var n := 0;
    while !reached && n < |states|
      invariant n <= |states| && |commands| == n && |w| == |prevErr| == DOF && Vectors(commands)
      invariant reached ==> n > 0 && commands[n - 1] == AT_REST
      invariant forall k | 0 <= k < n :: IsClose(states[k], target, CLOSE) <==> reached && k == n - 1
      invariant forall k, i | 0 <= k < n && 0 <= i < DOF && !(reached && k == n - 1) ::
                  commands[k][i] == Speed(Errors(target, states, i, k + 1))
      invariant !reached ==> forall i | 0 <= i < DOF ::
                  w[i] == Speed(Errors(target, states, i, n)) && prevErr[i] == LastError(target, states, i, n)
      decreases |states| - n, !reached
    {
      var state := states[n];
      w, prevErr := Cycle(target, states, n, w, prevErr);
      var close := CloseVec(state, target, CLOSE);
      if close {
        reached := true;
        w := AT_REST;
      }
      commands := commands + [w];
      n := n + 1;
    }
    assert Follows(target, states, commands, reached);
    CommandsAreSums(target, states, commands, reached);
    forall i, e | ErrorsWithin(target, states, i, |commands|, e)
      ensures CommandsWithin(commands, i, 2.63 * e)
    {
      CommandsBounded(target, states, commands, reached, i, e);
    }
  }

  /** Every command is the recurrence over the errors so far, but for a last one at rest. */
  ghost predicate Follows(target: seq<real>, states: seq<seq<real>>, commands: seq<seq<real>>, reached: bool)
    requires |target| == DOF && Vectors(states)
  {
    && |commands| <= |states| && Vectors(commands)
    && (reached ==> commands != [] && commands[|commands| - 1] == AT_REST)
    && forall k, i | 0 <= k < |commands| && 0 <= i < DOF && !(reached && k == |commands| - 1) ::
         commands[k][i] == Speed(Errors(target, states, i, k + 1))
  }

  lemma CommandsAreSums(target: seq<real>, states: seq<seq<real>>, commands: seq<seq<real>>, reached: bool)
    requires |target| == DOF && Vectors(states) && Follows(target, states, commands, reached)
    ensures forall k, i | 0 <= k < |commands| && 0 <= i < DOF && !(reached && k == |commands| - 1) ::
              commands[k][i] == Remaining(Errors(target, states, i, k + 1), k, k + 1)
  {
    forall k, i | 0 <= k < |commands| && 0 <= i < DOF && !(reached && k == |commands| - 1)
      ensures commands[k][i] == Remaining(Errors(target, states, i, k + 1), k, k + 1)
    {
      SpeedIsSum(Errors(target, states, i, k + 1));
    }
  }

  /** No command for joint i exceeds this speed. */
  ghost predicate CommandsWithin(commands: seq<seq<real>>, i: nat, speed: real)
    requires Vectors(commands) && i < DOF
  {
    forall k | 0 <= k < |commands| :: Abs(commands[k][i]) <= speed
  }

  /** Joint i's error stays within e over the first n states. */
  ghost predicate ErrorsWithin(target: seq<real>, states: seq<seq<real>>, i: nat, n: nat, e: real)
    requires |target| == DOF && Vectors(states) && n <= |states|
  {
    e >= 0.0 && i < DOF && forall k | 0 <= k < n :: Abs(target[i] - states[k][i]) <= e
  }

  ghost function LastError(target: seq<real>, states: seq<seq<real>>, i: nat, n: nat): real
    requires |target| == DOF && Vectors(states) && i < DOF && n <= |states|
  {
    if n == 0 then 0.0 else target[i] - states[n - 1][i]
  }

  /** One pass over the joints. */
  method Cycle(target: seq<real>, states: seq<seq<real>>, n: nat, w: seq<real>, prevErr: seq<real>)
    returns (w': seq<real>, prevErr': seq<real>)
    requires |target| == DOF && Vectors(states) && n < |states| && |w| == |prevErr| == DOF
    requires forall i | 0 <= i < DOF ::
               w[i] == Speed(Errors(target, states, i, n)) && prevErr[i] == LastError(target, states, i, n)
    ensures |w'| == |prevErr'| == DOF
    ensures forall i | 0 <= i < DOF ::
              w'[i] == Speed(Errors(target, states, i, n + 1)) && prevErr'[i] == LastError(target, states, i, n + 1)
  {
    w', prevErr' := w, prevErr;
    for i := 0 to DOF
      invariant |w'| == |prevErr'| == DOF
      invariant forall k | i <= k < DOF :: w'[k] == w[k] && prevErr'[k] == prevErr[k]
      invariant forall k | 0 <= k < i ::
                  w'[k] == Speed(Errors(target, states, k, n + 1)) && prevErr'[k] == LastError(target, states, k, n + 1)
    {
      var err := target[i] - states[n][i];
      SpeedGrows(target, states, i, n);
      w' := w'[i := NewSpeed(err, prevErr'[i], w'[i])];
      prevErr' := prevErr'[i := err];
    }
  }

  lemma SpeedGrows(target: seq<real>, states: seq<seq<real>>, i: nat, n: nat)
    requires |target| == DOF && Vectors(states) && i < DOF && n < |states|
    ensures Speed(Errors(target, states, i, n + 1))
         == NewSpeed(target[i] - states[n][i], LastError(target, states, i, n), Speed(Errors(target, states, i, n)))
  {
    assert Errors(target, states, i, n + 1)[..n] == Errors(target, states, i, n);
  }

  /** Whatever the arm does, while joint i's errors stay within e the loop commands it no speed
      beyond 2.63 e. */
  lemma CommandsBounded(target: seq<real>, states: seq<seq<real>>, commands: seq<seq<real>>, reached: bool, i: nat, e: real)
    requires |target| == DOF && Vectors(states) && Follows(target, states, commands, reached)
    requires ErrorsWithin(target, states, i, |commands|, e)
    ensures CommandsWithin(commands, i, 2.63 * e)
  {
    forall k | 0 <= k < |commands|
      ensures Abs(commands[k][i]) <= 2.63 * e
    {
      SpeedBound(Errors(target, states, i, k + 1), e);
    }
  }
}
