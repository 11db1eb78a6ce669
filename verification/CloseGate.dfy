/** The signed client counter that lets many operations use a RocksDB handle while one thread closes
    and reopens it. */
module CloseGate {

  type Client = nat

  /** What Close swaps the counter to. */
  const SHUT := -100

  /** The closing thread: the handle is usable; the swap succeeded and the handle is being torn down;
      it is gone; the counter was reset by Reopen and the handle is not open yet. */
  datatype Phase = Serving | Closing | Down | Opening

  /** `inside` are the calls using the handle, `refused` the calls that counted themselves in, were
      told that a shutdown is in progress, and have not counted themselves out. */
  datatype State = State(counter: int, phase: Phase, inside: set<Client>, refused: set<Client>)

  datatype Action = Enter(client: Client) | Leave(client: Client) | Swap | TearDown | Reset | OpenDb

  predicate Enabled(s: State, a: Action) {
    match a
    case Enter(c) => c !in s.inside && c !in s.refused
    case Leave(c) => c in s.inside || c in s.refused
    case Swap => s.phase.Serving? && s.counter == 0
    case TearDown => s.phase.Closing?
    case Reset => s.phase.Down?
    case OpenDb => s.phase.Opening?
  }

  /** Every call adds one and goes in when the new value is positive; every call subtracts one. */
  function Do(s: State, a: Action): State {
    match a
    case Enter(c) =>
      if s.counter + 1 > 0 then s.(counter := s.counter + 1, inside := s.inside + {c})
      else s.(counter := s.counter + 1, refused := s.refused + {c})
    case Leave(c) => s.(counter := s.counter - 1, inside := s.inside - {c}, refused := s.refused - {c})
    case Swap => s.(counter := SHUT, phase := Closing)
    case TearDown => s.(phase := Down)
    case Reset => s.(counter := 0, phase := Opening)
    case OpenDb => s.(phase := Serving)
  }

  function Init(): State {
    State(0, Serving, {}, {})
  }

  /** No call uses a handle that is torn down, gone, or not open yet. */
  predicate Safe(s: State) {
    !s.phase.Serving? ==> s.inside == {}
  }

  /** What the callers keep to: at most `limit` calls in flight; with `quietReset`, none in flight
      when Reopen resets the counter; with `quietOpen`, none begins between the reset and the open. */
  datatype Policy = Policy(limit: nat, quietReset: bool, quietOpen: bool)

  predicate Obeys(p: Policy, s: State, a: Action) {
    match a
    case Enter(_) => |s.inside| + |s.refused| < p.limit && (p.quietOpen ==> !s.phase.Opening?)
    case Reset => p.quietReset ==> s.inside == {} && s.refused == {}
    case _ => true
  }

  ghost predicate ValidRun(p: Policy, s: State, run: seq<Action>)
    decreases |run|
  {
    run == [] || (Enabled(s, run[0]) && Obeys(p, s, run[0]) && ValidRun(p, Do(s, run[0]), run[1..]))
  }

  ghost function Final(s: State, run: seq<Action>): State
    decreases |run|
  {
    if run == [] then s else Final(Do(s, run[0]), run[1..])
  }

  // ---- the counter's meaning ---------------------------------------------------------------------

  ghost predicate Inv(s: State) {
    && s.inside !! s.refused
    && s.counter == (if s.phase.Closing? || s.phase.Down? then SHUT else 0) + |s.inside| + |s.refused|
    && (s.phase.Serving? || s.phase.Opening? ==> s.refused == {})
    && Safe(s)
  }

  predicate Strict(p: Policy) {
    p.limit <= 100 && p.quietReset && p.quietOpen
  }

  lemma StepKeepsInv(p: Policy, s: State, a: Action)
    requires Strict(p) && Inv(s) && Enabled(s, a) && Obeys(p, s, a)
    ensures Inv(Do(s, a))
  {
    var r := Do(s, a);
    match a
    case Leave(c) =>
      if c in s.inside {
        assert r.refused == s.refused;
      } else {
        assert r.inside == s.inside;
      }
    case Swap =>
      assert |s.inside| == 0;
    case _ =>
  }

  lemma {:induction false} RunKeepsInv(p: Policy, s: State, run: seq<Action>)
    requires Strict(p) && Inv(s) && ValidRun(p, s, run)
    ensures Inv(Final(s, run))
    decreases |run|
  {
    hide Inv;
    if run != [] {
      StepKeepsInv(p, s, run[0]);
      RunKeepsInv(p, Do(s, run[0]), run[1..]);
    }
  }

  /** With at most 100 calls in flight and quiet reopens, in every run: the swap succeeds only with no
      call inside, no call is inside while the handle is unusable, and a call is let in exactly when
      the handle is usable. */
  lemma GateIsSafe(p: Policy, run: seq<Action>, c: Client)
    requires Strict(p) && ValidRun(p, Init(), run)
    ensures var s := Final(Init(), run);
            && Safe(s)
            && (Enabled(s, Swap) ==> s.inside == {})
            && (Enabled(s, Enter(c)) && Obeys(p, s, Enter(c)) ==>
                  (c in Do(s, Enter(c)).inside <==> s.phase.Serving?))
  {
    RunKeepsInv(p, Init(), run);
    var s := Final(Init(), run);
    assert s.phase.Serving? && s.counter == 0 ==> |s.inside| == 0;
  }

  // ---- what goes wrong otherwise -----------------------------------------------------------------

  /** The clients from `from` up to, not including, `until`, one call each. */
  function Enters(from: nat, until: nat): seq<Action>
    decreases until - from
  {
    if from >= until then [] else [Enter(from)] + Enters(from + 1, until)
  }

  function Below(n: nat): set<Client> {
    if n == 0 then {} else Below(n - 1) + {n - 1}
  }

  lemma {:induction false} BelowIs(n: nat)
    ensures |Below(n)| == n && forall c: nat :: c in Below(n) <==> c < n
  {
    if n > 0 {
      BelowIs(n - 1);
    }
  }

  /** Calls pile up behind a shut gate, each refused, until the hundredth. */
  lemma {:induction false} Flood(p: Policy, k: nat)
    requires k <= 100 < p.limit
    ensures var s := State(SHUT + k, Closing, {}, Below(k));
            ValidRun(p, s, Enters(k, 101)) && Final(s, Enters(k, 101)) == State(1, Closing, {100}, Below(100))
    decreases 100 - k
  {
    var s := State(SHUT + k, Closing, {}, Below(k));
    BelowIs(k);
    var run := Enters(k, 101);
    assert run[0] == Enter(k) && run[1..] == Enters(k + 1, 101);
    if k < 100 {
      Flood(p, k + 1);
      assert Do(s, run[0]) == State(SHUT + (k + 1), Closing, {}, Below(k + 1));
    } else {
      assert Enters(101, 101) == [];
      assert Do(s, run[0]) == State(1, Closing, {100}, Below(100));
    }
  }

  /** The 101st call in flight after the swap is let in. */
  lemma FloodBreaksIn(p: Policy)
    requires p.limit > 100
    ensures exists run :: ValidRun(p, Init(), run) && !Safe(Final(Init(), run))
  {
    var run := [Swap] + Enters(0, 101);
    assert run[0] == Swap && run[1..] == Enters(0, 101);
    Flood(p, 0);
    assert Do(Init(), Swap) == State(SHUT + 0, Closing, {}, Below(0));
    assert ValidRun(p, Init(), run) && !Safe(Final(Init(), run));
  }

  lemma OneMore(p: Policy, s: State, a: Action, rest: seq<Action>)
    requires Enabled(s, a) && Obeys(p, s, a) && ValidRun(p, Do(s, a), rest)
    ensures ValidRun(p, s, [a] + rest)
    ensures Final(s, [a] + rest) == Final(Do(s, a), rest)
  {
    assert ([a] + rest)[1..] == rest;
  }

  /** A call that begins between the reset and the open uses a handle that is not there. */
  lemma EarlyResetLetsIn(p: Policy)
    requires p.limit > 0 && !p.quietOpen
    ensures exists run :: ValidRun(p, Init(), run) && !Safe(Final(Init(), run))
  {
    var s1 := State(SHUT, Closing, {}, {});
    var s2 := State(SHUT, Down, {}, {});
    var s3 := State(0, Opening, {}, {});
    OneMore(p, s3, Enter(0), []);
    OneMore(p, s2, Reset, [Enter(0)]);
    OneMore(p, s1, TearDown, [Reset] + [Enter(0)]);
    OneMore(p, Init(), Swap, [TearDown] + ([Reset] + [Enter(0)]));
    var run := [Swap] + ([TearDown] + ([Reset] + [Enter(0)]));
    assert ValidRun(p, Init(), run) && !Safe(Final(Init(), run));
  }

  /** One short, with the handle open: a call is refused, the next goes in, and once the refused one
      has left, the swap succeeds with a call inside. */
  lemma SkewedSwap(p: Policy)
    requires p.limit > 1
    ensures var run := [Enter(1)] + ([Enter(2)] + ([Leave(1)] + [Swap]));
            var s := State(-1, Serving, {}, {});
            ValidRun(p, s, run) && Final(s, run) == State(SHUT, Closing, {2}, {})
  {
    var s7 := State(0, Serving, {}, {1});
    var s8 := State(1, Serving, {2}, {1});
    var s9 := State(0, Serving, {2}, {});
    OneMore(p, s9, Swap, []);
    hide ValidRun, Final;
    assert Do(s8, Leave(1)) == s9;
    OneMore(p, s8, Leave(1), [Swap]);
    OneMore(p, s7, Enter(2), [Leave(1)] + [Swap]);
    OneMore(p, State(-1, Serving, {}, {}), Enter(1), [Enter(2)] + ([Leave(1)] + [Swap]));
  }

  /** A refused call that counts itself out after the reset leaves the counter one short for good: a
      later call is refused although the handle is open, and the next swap succeeds with a call
      inside. */
  lemma LateLeaveSkewsTheCounter(p: Policy)
    requires p.limit > 1 && !p.quietReset
    ensures exists run :: ValidRun(p, Init(), run) && !Safe(Final(Init(), run))
  {
    hide ValidRun, Final;
    SkewedSwap(p);
    var r6 := [Enter(1)] + ([Enter(2)] + ([Leave(1)] + [Swap]));
    OneMore(p, State(-1, Opening, {}, {}), OpenDb, r6);
    assert Do(State(0, Opening, {}, {0}), Leave(0)) == State(-1, Opening, {}, {});
    OneMore(p, State(0, Opening, {}, {0}), Leave(0), [OpenDb] + r6);
    var r4 := [Leave(0)] + ([OpenDb] + r6);
    OneMore(p, State(-99, Down, {}, {0}), Reset, r4);
    OneMore(p, State(-99, Closing, {}, {0}), TearDown, [Reset] + r4);
    var r2 := [TearDown] + ([Reset] + r4);
    OneMore(p, State(SHUT, Closing, {}, {}), Enter(0), r2);
    OneMore(p, Init(), Swap, [Enter(0)] + r2);
    assert ValidRun(p, Init(), [Swap] + ([Enter(0)] + r2));
  }

  /** For callers that may overlap at all, the gate is safe in every run exactly when no more than 100
      calls are ever in flight and every reopen is quiet on both sides of the reset. */
  lemma SafeExactlyWhenStrict(p: Policy)
    requires p.limit > 1
    ensures (forall run | ValidRun(p, Init(), run) :: Safe(Final(Init(), run))) <==> Strict(p)
  {
    if Strict(p) {
      forall run | ValidRun(p, Init(), run)
        ensures Safe(Final(Init(), run))
      {
        RunKeepsInv(p, Init(), run);
      }
    } else if p.limit > 100 {
      FloodBreaksIn(p);
    } else if !p.quietOpen {
      EarlyResetLetsIn(p);
    } else {
      LateLeaveSkewsTheCounter(p);
    }
  }
}
