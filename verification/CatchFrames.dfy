/** The catch-frame stack of `ring_try` and `ring_raise` against structured
    exceptions. */
module CatchFrames {
  import opened Options

  type Value = int

  /** A constant, or the error bound by an enclosing catch arm. */
  datatype Term = Const(v: Value) | Bound(depth: nat)

  datatype Prog =
    | Give(t: Term)
    | Emit(t: Term)
    | Then(first: Prog, second: Prog)
    | Raise(t: Term)
    | Try(body: Prog, arm: Prog)

  type Env = seq<Value>

  function Look(t: Term, env: Env): Value {
    match t
    case Const(v) => v
    case Bound(d) => if d < |env| then env[|env| - 1 - d] else 0
  }

  // ---------------------------------------------------------------------
  // Structured exceptions
  // ---------------------------------------------------------------------

  datatype Result = Normal(v: Value) | Raised(e: Value)

  /** What a program emits, and how it ends. */
  datatype Behaviour = Behaviour(out: seq<Value>, result: Result)

  function Eval(p: Prog, env: Env): Behaviour {
    match p
    case Give(t) => Behaviour([], Normal(Look(t, env)))
    case Emit(t) => Behaviour([Look(t, env)], Normal(0))
    case Raise(t) => Behaviour([], Raised(Look(t, env)))
    case Then(a, b) =>
      var x := Eval(a, env);
      if x.result.Raised? then x else Follow(x.out, Eval(b, env))
    case Try(body, arm) =>
      var x := Eval(body, env);
      if x.result.Normal? then x else Follow(x.out, Eval(arm, env + [x.result.e]))
  }

  function Follow(out: seq<Value>, b: Behaviour): Behaviour { Behaviour(out + b.out, b.result) }

  // ---------------------------------------------------------------------
  // The machine
  // ---------------------------------------------------------------------

  /** An activation on the C stack: a pending continuation, or a call of
      `ring_try` with its local catch frame. Its index is its address. */
  datatype Frame =
    | Next(p: Prog, env: Env)
    | Guard(arm: Prog, env: Env, prev: Option<nat>, error: Option<Value>, caught: bool)

  datatype Control = Running(p: Prog, env: Env) | Returning(v: Value)

  predicate Open(f: Frame) { f.Guard? && !f.caught }

  /** The innermost activation whose catch frame is armed. */
  function LastOpen(stack: seq<Frame>): (r: Option<nat>)
    ensures r.Some? ==> r.value < |stack| && Open(stack[r.value])
  {
    if stack == [] then None
    else if Open(stack[|stack| - 1]) then Some(|stack| - 1)
    else LastOpen(stack[..|stack| - 1])
  }

  /** Each armed frame remembers the one below it. */
  predicate Linked(stack: seq<Frame>) {
    forall i :: 0 <= i < |stack| && Open(stack[i]) ==> stack[i].prev == LastOpen(stack[..i])
  }

  /** How the activations above a depth finish a behaviour. */
  function Rest(stack: seq<Frame>, depth: nat, b: Behaviour): Behaviour {
    if |stack| <= depth then b
    else
      var f, below := stack[|stack| - 1], stack[..|stack| - 1];
      if f.Next? && b.result.Normal? then Rest(below, depth, Follow(b.out, Eval(f.p, f.env)))
      else if Open(f) && b.result.Raised? then Rest(below, depth, Follow(b.out, Eval(f.arm, f.env + [b.result.e])))
      else Rest(below, depth, b)
  }

  /** What a machine state will do. */
  function Meaning(control: Control, stack: seq<Frame>, depth: nat, out: seq<Value>): Behaviour {
    match control
    case Running(p, env) => Rest(stack, depth, Follow(out, Eval(p, env)))
    case Returning(v) => Rest(stack, depth, Behaviour(out, Normal(v)))
  }

  function Size(p: Prog): nat {
    match p
    case Then(a, b) => Size(a) + Size(b) + 2
    case Try(a, b) => Size(a) + Size(b) + 3
    case _ => 1
  }

  function FrameWork(f: Frame): nat {
    match f
    case Next(p, _) => Size(p) + 1
    case Guard(arm, _, _, _, caught) => if caught then 1 else Size(arm) + 2
  }

  function Work(stack: seq<Frame>): nat {
    if stack == [] then 0 else Work(stack[..|stack| - 1]) + FrameWork(stack[|stack| - 1])
  }

  function ControlWork(c: Control): nat { if c.Running? then Size(c.p) else 0 }

  lemma Pushed(stack: seq<Frame>, f: Frame)
    ensures (stack + [f])[..|stack|] == stack
    ensures Work(stack + [f]) == Work(stack) + FrameWork(f)
    ensures LastOpen(stack + [f]) == if Open(f) then Some(|stack|) else LastOpen(stack)
    ensures Linked(stack) && (Open(f) ==> f.prev == LastOpen(stack)) ==> Linked(stack + [f])
  {
    assert (stack + [f])[..|stack|] == stack;
    assert forall i :: 0 <= i < |stack| ==> (stack + [f])[..i] == stack[..i];
  }

  lemma LinkedBelow(stack: seq<Frame>, n: nat)
    requires Linked(stack) && n <= |stack|
    ensures Linked(stack[..n])
  {
    assert forall i :: 0 <= i < n ==> stack[..n][..i] == stack[..i];
  }

  lemma {:induction false} WorkBelow(stack: seq<Frame>, n: nat)
    requires n <= |stack|
    ensures Work(stack[..n]) <= Work(stack)
  {
    if n < |stack| {
      WorkBelow(stack[..|stack| - 1], n);
      assert stack[..|stack| - 1][..n] == stack[..n];
    } else {
      assert stack[..n] == stack;
    }
  }

  /** A raise skips every activation above the innermost armed one. */
  lemma {:induction false} RaiseSkips(stack: seq<Frame>, depth: nat, b: Behaviour)
    requires b.result.Raised?
    ensures var c := LastOpen(stack);
      Rest(stack, depth, b) == if c.Some? && c.value >= depth then Rest(stack[..c.value + 1], depth, b) else b
  {
    if |stack| > depth {
      var below := stack[..|stack| - 1];
      if Open(stack[|stack| - 1]) {
        assert stack[..|stack|] == stack;
      } else {
        RaiseSkips(below, depth, b);
        var c := LastOpen(below);
        if c.Some? {
          assert below[..c.value + 1] == stack[..c.value + 1];
        }
      }
    }
  }

  /** After the jump the frame is disarmed and its arm runs in its place. */
  lemma CaughtMeaning(stack: seq<Frame>, c: nat, depth: nat, out: seq<Value>, e: Value)
    requires c < |stack| && Open(stack[c]) && LastOpen(stack) == Some(c) && depth <= c
    ensures Rest(stack, depth, Behaviour(out, Raised(e))) ==
      Rest(stack[..c], depth, Follow(out, Eval(stack[c].arm, stack[c].env + [e])))
  {
    RaiseSkips(stack, depth, Behaviour(out, Raised(e)));
    assert stack[..c + 1][..c] == stack[..c];
  }

  lemma RestPushed(stack: seq<Frame>, f: Frame, depth: nat, b: Behaviour)
    requires depth <= |stack|
    ensures Rest(stack + [f], depth, b) ==
      if f.Next? && b.result.Normal? then Rest(stack, depth, Follow(b.out, Eval(f.p, f.env)))
      else if Open(f) && b.result.Raised? then Rest(stack, depth, Follow(b.out, Eval(f.arm, f.env + [b.result.e])))
      else Rest(stack, depth, b)
  {
    assert (stack + [f])[..|stack|] == stack;
  }

  lemma FollowTwice(a: seq<Value>, b: seq<Value>, c: Behaviour)
    ensures Follow(a, Follow(b, c)) == Follow(a + b, c)
  {
  }

  /** Replacing the armed frame by a disarmed one leaves a lawful stack. */
  lemma Disarmed(stack: seq<Frame>, c: nat, f: Frame)
    requires Linked(stack) && c < |stack| && Open(stack[c]) && f.Guard? && f.caught
    ensures Linked(stack[..c] + [f]) && LastOpen(stack[..c] + [f]) == stack[c].prev
    ensures Work(stack[..c] + [f]) + Size(stack[c].arm) < Work(stack)
  {
    LinkedBelow(stack, c);
    Pushed(stack[..c], f);
    WorkBelow(stack, c + 1);
    assert stack[..c + 1][..c] == stack[..c];
  }

  class Machine {
    var control: Control
    var stack: seq<Frame>
    /** `ring_catch_stack`: the address of the innermost armed frame. */
    var catchStack: Option<nat>
    var out: seq<Value>

    ghost predicate Valid()
      reads this
    {
      Linked(stack) && catchStack == LastOpen(stack)
    }

    constructor ()
      ensures Valid() && stack == [] && out == [] && catchStack == None
    {
      control, stack, catchStack, out := Returning(0), [], None, [];
    }

    ghost function WorkLeft(): nat
      reads this
    {
      ControlWork(control) + Work(stack)
    }

    /** Entering `ring_try`: a new frame is linked and armed, the body runs. */
    method BeginTry(ghost depth: nat)
      requires Valid() && control.Running? && control.p.Try? && depth <= |stack|
      modifies this
      ensures Valid() && depth <= |stack| && old(stack) <= stack
      ensures WorkLeft() < old(WorkLeft())
      ensures Meaning(control, stack, depth, out) == old(Meaning(control, stack, depth, out))
    {
      var p, env := control.p, control.env;
      var frame := Guard(p.arm, env, catchStack, None, false);
      Pushed(stack, frame);
      RestPushed(stack, frame, depth, Follow(out, Eval(p.body, env)));
      if Eval(p.body, env).result.Raised? {
        FollowTwice(out, Eval(p.body, env).out, Eval(p.arm, env + [Eval(p.body, env).result.e]));
      }
      catchStack := Some(|stack|);
      stack := stack + [frame];
      control := Running(p.body, env);
    }

    method BeginThen(ghost depth: nat)
      requires Valid() && control.Running? && control.p.Then? && depth <= |stack|
      modifies this
      ensures Valid() && depth <= |stack| && old(stack) <= stack
      ensures WorkLeft() < old(WorkLeft())
      ensures Meaning(control, stack, depth, out) == old(Meaning(control, stack, depth, out))
    {
      var p, env := control.p, control.env;
      var frame := Next(p.second, env);
      Pushed(stack, frame);
      RestPushed(stack, frame, depth, Follow(out, Eval(p.first, env)));
      FollowTwice(out, Eval(p.first, env).out, Eval(p.second, env));
      stack := stack + [frame];
      control := Running(p.first, env);
    }

    /** The innermost activation gets its result: a continuation goes on, an
        uncaught `ring_try` unlinks its frame, a caught one just returns. */
    method Return(ghost depth: nat)
      requires Valid() && control.Returning? && depth < |stack|
      modifies this
      ensures Valid() && depth <= |stack| && stack == old(stack)[..|old(stack)| - 1]
      ensures WorkLeft() < old(WorkLeft())
      ensures Meaning(control, stack, depth, out) == old(Meaning(control, stack, depth, out))
    {
      var n := |stack| - 1;
      var top := stack[n];
      LinkedBelow(stack, n);
      assert Work(stack) == Work(stack[..n]) + FrameWork(top);
      stack := stack[..n];
      match top
      case Next(p, env) =>
        control := Running(p, env);
      case Guard(_, _, prev, _, caught) =>
        if !caught {
          catchStack := prev;
        }
    }

    /** `ring_raise` with a frame to go to: store the error, jump back to that
        activation, unlink its frame and run the arm. */
    method RaiseTo(e: Value, ghost depth: nat)
      requires Valid() && control.Running? && control.p.Raise? && e == Look(control.p.t, control.env)
      requires catchStack.Some? && depth <= catchStack.value
      modifies this
      ensures Valid() && depth <= |stack| && |stack| > depth
      ensures stack[..depth] == old(stack)[..depth]
      ensures WorkLeft() < old(WorkLeft())
      ensures Meaning(control, stack, depth, out) == old(Meaning(control, stack, depth, out))
    {
      var c := catchStack.value;
      CaughtMeaning(stack, c, depth, out, e);
      assert Follow(out, Behaviour([], Raised(e))) == Behaviour(out, Raised(e));
      stack := stack[c := stack[c].(error := Some(e))];
      var frame := stack[c];
      var jumped := frame.(caught := true);
      Disarmed(old(stack), c, jumped);
      assert stack[..c] == old(stack)[..c];
      RestPushed(stack[..c], jumped, depth, Follow(out, Eval(frame.arm, frame.env + [e])));
      stack := stack[..c] + [jumped];
      catchStack := frame.prev;
      control := Running(frame.arm, frame.env + [frame.error.value]);
    }

    /** Running a program on top of whatever is active. The machine does what
        structured exceptions would: it emits the same and ends the same; on a
        normal end stack and catch stack are as before; an error that escapes
        leaves the catch stack as it was found. */
    method Run(p: Prog, env: Env) returns (result: Result)
      requires Valid()
      modifies this
      ensures Valid() && catchStack == old(catchStack)
      ensures result == Eval(p, env).result && out == old(out) + Eval(p, env).out
      ensures result.Normal? ==> stack == old(stack)
      ensures result.Raised? ==> old(stack) <= stack
    {
      ghost var depth, base := |stack|, stack;
      var bottom := |stack|;
      control := Running(p, env);
      while !(control.Returning? && |stack| == bottom)
        invariant Valid() && bottom == depth <= |stack| && stack[..depth] == base
        invariant Meaning(control, stack, depth, out) == Follow(old(out), Eval(p, env))
        decreases WorkLeft()
      {
        match control
        case Returning(_) => Return(depth);
        case Running(Give(t), env') =>
          assert Follow(out, Eval(control.p, env')) == Behaviour(out, Normal(Look(t, env')));
          control := Returning(Look(t, env'));
        case Running(Emit(t), env') =>
          assert Follow(out, Eval(control.p, env')) == Behaviour(out + [Look(t, env')], Normal(0));
          out, control := out + [Look(t, env')], Returning(0);
        case Running(Then(_, _), _) => BeginThen(depth);
        case Running(Try(_, _), _) => BeginTry(depth);
        case Running(Raise(t), env') =>
          var e := Look(t, env');
          if catchStack.None? || catchStack.value < bottom {
            assert Follow(out, Eval(control.p, env')) == Behaviour(out, Raised(e));
            RaiseSkips(stack, depth, Behaviour(out, Raised(e)));
            OpenBelow(stack, depth);
            return Raised(e);
          }
          RaiseTo(e, depth);
      }
      assert stack == base;
      result := Normal(control.v);
    }
  }

  /** Nothing armed above a depth: the armed frames are those below it. */
  lemma {:induction false} OpenBelow(stack: seq<Frame>, depth: nat)
    requires depth <= |stack| && (LastOpen(stack).Some? ==> LastOpen(stack).value < depth)
    ensures LastOpen(stack) == LastOpen(stack[..depth])
  {
    if |stack| > depth {
      OpenBelow(stack[..|stack| - 1], depth);
      assert stack[..|stack| - 1][..depth] == stack[..depth];
    } else {
      assert stack[..depth] == stack;
    }
  }

  /** A whole program on an empty stack: an escaping error is the panic. */
  method RunProgram(p: Prog) returns (out: seq<Value>, result: Result)
    ensures Behaviour(out, result) == Eval(p, [])
  {
    var m := new Machine();
    result := m.Run(p, []);
    out := m.out;
  }
}
