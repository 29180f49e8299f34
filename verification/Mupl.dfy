/** The MUPL interpreter, without number arrays, and what its macros mean. An evaluation is cut off after a number of
    nested calls; an outcome is what some number of calls suffices for.
 */
module Mupl {

  datatype Option<T> = None | Some(value: T)

  /** Expressions; values are among them, and closures occur only as values. */
  datatype Exp =
    | Var(name: string)
    | Int(num: int)
    | Add(e1: Exp, e2: Exp)
    | IfGreater(e1: Exp, e2: Exp, e3: Exp, e4: Exp)
    | Fun(nameopt: Option<string>, formal: string, body: Exp)
    | Call(funexp: Exp, actual: Exp)
    | MLet(x: string, e: Exp, body: Exp)
    | GLet(x: string, e: Exp, body: Exp)
    | APair(e1: Exp, e2: Exp)
    | Fst(e: Exp)
    | Snd(e: Exp)
    | AUnit
    | IsAUnit(e: Exp)
    | Closure(env: Env, nameopt: Option<string>, formal: string, body: Exp)

  datatype Env = Empty | Bind(name: string, value: Exp, rest: Env)

  datatype Result = Val(v: Exp) | Error | CutOff

  // ---------- the interpreter ----------

  /** The depth of a value through pairs, closures and what their environments bind. */
  function Size(v: Exp): nat {
    match v
    case APair(v1, v2) => 1 + Size(v1) + Size(v2)
    case Closure(env, _, _, _) => 1 + EnvSize(env)
    case _ => 0
  }

  function EnvSize(env: Env): nat {
    match env
    case Empty => 0
    case Bind(_, v, rest) => 1 + Size(v) + EnvSize(rest)
  }

  function Lookup(env: Env, x: string): (r: Result)
    ensures r.Val? ==> Size(r.v) < EnvSize(env)
    ensures r != CutOff
  {
    match env
    case Empty => Error
    case Bind(y, v, rest) => if y == x then Val(v) else Lookup(rest, x)
  }

  /** The environment of a function body: the argument, and on top of it the function's own name, if it has one. */
  function CallEnv(c: Exp, arg: Exp): Env
    requires c.Closure?
  {
    var env := Bind(c.formal, arg, c.env);
    if c.nameopt.Some? then Bind(c.nameopt.value, c, env) else env
  }

  /** glet's environment: x is v everywhere, also inside the closures bound in it. */
  function Override(env: Env, x: string, v: Exp): Env {
    match env
    case Empty => Bind(x, v, Empty)
    case Bind(y, w, rest) =>
      if y == x then Bind(x, v, Override(rest, x, v))
      else if w.Closure? then
        Bind(y, Closure(Override(w.env, x, v), w.nameopt, w.formal, w.body), Override(rest, x, v))
      else Bind(y, w, Override(rest, x, v))
  }

  /** Two evaluations in order: the second counts only if the first gives a value. */
  function InOrder(r1: Result, r2: Result): Result { if r1.Val? then r2 else r1 }

  /** eval-under-env, to a depth of n calls. */
  function Eval(e: Exp, env: Env, n: nat): Result
    decreases n
  {
    if n == 0 then CutOff
    else
      match e
      case Var(x) => Lookup(env, x)
      case Int(_) => Val(e)
      case Add(e1, e2) =>
        var r1, r2 := Eval(e1, env, n - 1), Eval(e2, env, n - 1);
        if !InOrder(r1, r2).Val? then InOrder(r1, r2)
        else if r1.v.Int? && r2.v.Int? then Val(Int(r1.v.num + r2.v.num))
        else Error
      case IfGreater(e1, e2, e3, e4) =>
        var r1, r2 := Eval(e1, env, n - 1), Eval(e2, env, n - 1);
        if !InOrder(r1, r2).Val? then InOrder(r1, r2)
        else if r1.v.Int? && r2.v.Int? then
          if r1.v.num > r2.v.num then Eval(e3, env, n - 1) else Eval(e4, env, n - 1)
        else Error
      case Closure(_, _, _, _) => Val(e)
      case Fun(name, formal, body) => Val(Closure(env, name, formal, body))
      case Call(f, a) =>
        var r1, r2 := Eval(f, env, n - 1), Eval(a, env, n - 1);
        if !InOrder(r1, r2).Val? then InOrder(r1, r2)
        else if r1.v.Closure? then Eval(r1.v.body, CallEnv(r1.v, r2.v), n - 1)
        else Error
      case MLet(x, e1, body) =>
        var r := Eval(e1, env, n - 1);
        if r.Val? then Eval(body, Bind(x, r.v, env), n - 1) else r
      case GLet(x, e1, body) =>
        var r := Eval(e1, env, n - 1);
        if r.Val? then Eval(body, Override(env, x, r.v), n - 1) else r
      case APair(e1, e2) =>
        var r1, r2 := Eval(e1, env, n - 1), Eval(e2, env, n - 1);
        if !InOrder(r1, r2).Val? then InOrder(r1, r2) else Val(APair(r1.v, r2.v))
      case Fst(e1) =>
        var r := Eval(e1, env, n - 1);
        if !r.Val? then r else if r.v.APair? then Val(r.v.e1) else Error
      case Snd(e1) =>
        var r := Eval(e1, env, n - 1);
        if !r.Val? then r else if r.v.APair? then Val(r.v.e2) else Error
      case AUnit => Val(e)
      case IsAUnit(e1) =>
        var r := Eval(e1, env, n - 1);
        if !r.Val? then r else Val(Int(if r.v.AUnit? then 1 else 0))
  }

  /** More calls do not change a result. */
  lemma {:induction false} MoreCalls(e: Exp, env: Env, n: nat, m: nat)
    requires n <= m && Eval(e, env, n) != CutOff
    ensures Eval(e, env, m) == Eval(e, env, n)
    decreases n, 0
  {
    var i, j := n - 1, m - 1;
    match e
    case Var(_) =>
    case Int(_) =>
    case AUnit =>
    case Fun(_, _, _) =>
    case Closure(_, _, _, _) =>
    case Add(e1, e2) => MoreInOrder(e1, e2, env, i, j);
    case APair(e1, e2) => MoreInOrder(e1, e2, env, i, j);
    case IfGreater(e1, e2, e3, e4) =>
      MoreInOrder(e1, e2, env, i, j);
      var r1, r2 := Eval(e1, env, i), Eval(e2, env, i);
      if r1.Val? && r2.Val? && r1.v.Int? && r2.v.Int? {
        MoreCalls(if r1.v.num > r2.v.num then e3 else e4, env, i, j);
      }
    case Call(f, a) =>
      MoreInOrder(f, a, env, i, j);
      var r1, r2 := Eval(f, env, i), Eval(a, env, i);
      if r1.Val? && r2.Val? && r1.v.Closure? {
        MoreCalls(r1.v.body, CallEnv(r1.v, r2.v), i, j);
      }
    case MLet(x, e1, body) =>
      MoreCalls(e1, env, i, j);
      var r := Eval(e1, env, i);
      if r.Val? {
        MoreCalls(body, Bind(x, r.v, env), i, j);
      }
    case GLet(x, e1, body) =>
      MoreCalls(e1, env, i, j);
      var r := Eval(e1, env, i);
      if r.Val? {
        MoreCalls(body, Override(env, x, r.v), i, j);
      }
    case Fst(e1) => MoreCalls(e1, env, i, j);
    case Snd(e1) => MoreCalls(e1, env, i, j);
    case IsAUnit(e1) => MoreCalls(e1, env, i, j);
  }

  lemma {:induction false} MoreInOrder(e1: Exp, e2: Exp, env: Env, n: nat, m: nat)
    requires n <= m && InOrder(Eval(e1, env, n), Eval(e2, env, n)) != CutOff
    ensures Eval(e1, env, m) == Eval(e1, env, n)
    ensures Eval(e1, env, n).Val? ==> Eval(e2, env, m) == Eval(e2, env, n)
    decreases n, 1
  {
    MoreCalls(e1, env, n, m);
    if Eval(e1, env, n).Val? {
      MoreCalls(e2, env, n, m);
    }
  }

  /** The evaluation ends, with this result. */
  ghost predicate Outcome(e: Exp, env: Env, r: Result) {
    r != CutOff && exists n: nat :: Eval(e, env, n) == r
  }

  lemma {:induction false} OneOutcome(e: Exp, env: Env, r: Result, s: Result)
    requires Outcome(e, env, r) && Outcome(e, env, s)
    ensures r == s
  {
    var n: nat :| Eval(e, env, n) == r;
    var m: nat :| Eval(e, env, m) == s;
    MoreCalls(e, env, n, if n < m then m else n);
    MoreCalls(e, env, m, if n < m then m else n);
  }

  // ---------- what expressions mean ----------

  /** The value of an addition is the sum of two integers; nothing else has a value. */
  lemma {:induction false} AddMeaning(e1: Exp, e2: Exp, env: Env, v: Exp)
    ensures Outcome(Add(e1, e2), env, Val(v))
            <==> exists a, b :: Outcome(e1, env, Val(Int(a))) && Outcome(e2, env, Val(Int(b))) && v == Int(a + b)
  {
    hide Outcome, Eval;
    if Outcome(Add(e1, e2), env, Val(v)) {
      var a, b := AddNeeds(e1, e2, env, v);
    }
    forall a, b | Outcome(e1, env, Val(Int(a))) && Outcome(e2, env, Val(Int(b)))
      ensures Outcome(Add(e1, e2), env, Val(Int(a + b)))
    {
      AddGives(e1, e2, env, a, b);
    }
  }

  lemma {:induction false} AddNeeds(e1: Exp, e2: Exp, env: Env, v: Exp) returns (a: int, b: int)
    requires Outcome(Add(e1, e2), env, Val(v))
    ensures Outcome(e1, env, Val(Int(a))) && Outcome(e2, env, Val(Int(b))) && v == Int(a + b)
  {
    var n: nat :| Eval(Add(e1, e2), env, n) == Val(v);
    MoreCalls(Add(e1, e2), env, n, n + 1);
    AddAt(e1, e2, env, n);
    hide Eval;
    a, b := Eval(e1, env, n).v.num, Eval(e2, env, n).v.num;
  }

  lemma {:induction false} AddGives(e1: Exp, e2: Exp, env: Env, a: int, b: int)
    requires Outcome(e1, env, Val(Int(a))) && Outcome(e2, env, Val(Int(b)))
    ensures Outcome(Add(e1, e2), env, Val(Int(a + b)))
  {
    var n1: nat :| Eval(e1, env, n1) == Val(Int(a));
    var n2: nat :| Eval(e2, env, n2) == Val(Int(b));
    MoreCalls(e1, env, n1, n1 + n2);
    MoreCalls(e2, env, n2, n1 + n2);
    AddAt(e1, e2, env, n1 + n2);
    hide Eval;
  }

  lemma {:induction false} AddAt(e1: Exp, e2: Exp, env: Env, n: nat)
    ensures var r1, r2 := Eval(e1, env, n), Eval(e2, env, n);
            Eval(Add(e1, e2), env, n + 1)
            == if !r1.Val? then r1 else if !r2.Val? then r2
               else if r1.v.Int? && r2.v.Int? then Val(Int(r1.v.num + r2.v.num)) else Error
  {
  }

  /** In a function's body its own name stands for the function, even if the argument has the same name. */
  lemma {:induction false} CallBinds(c: Exp, arg: Exp, y: string)
    requires c.Closure?
    ensures Lookup(CallEnv(c, arg), y) == if c.nameopt == Some(y) then Val(c) else if y == c.formal then Val(arg) else Lookup(c.env, y)
  {
  }

  /** mlet* binds one name after the other: each expression is evaluated where those before it are bound. */
  lemma {:induction false} MLetStarMeaning(bindings: seq<(string, Exp)>, vs: seq<Exp>, e: Exp, env: Env, r: Result)
    requires |vs| == |bindings|
    requires forall i :: 0 <= i < |vs| ==> Outcome(bindings[i].1, BoundFirst(bindings, vs, env, i), Val(vs[i]))
    ensures Outcome(MLetStar(bindings, e), env, r) <==> Outcome(e, BoundFirst(bindings, vs, env, |vs|), r)
    decreases |vs|
  {
    if vs != [] {
      var rest, next := bindings[1..], Bind(bindings[0].0, vs[0], env);
      forall i | 0 <= i <= |vs| - 1
        ensures BoundFirst(rest, vs[1..], next, i) == BoundFirst(bindings, vs, env, i + 1)
      {
        FirstBound(bindings, vs, env, i);
      }
      forall i | 0 <= i < |vs| - 1
        ensures Outcome(rest[i].1, BoundFirst(rest, vs[1..], next, i), Val(vs[1..][i]))
      {
        assert Outcome(bindings[i + 1].1, BoundFirst(bindings, vs, env, i + 1), Val(vs[i + 1]));
      }
      MLetStarMeaning(rest, vs[1..], e, next, r);
      assert Outcome(bindings[0].1, BoundFirst(bindings, vs, env, 0), Val(vs[0]));
      MLetMeaning(bindings[0].0, bindings[0].1, MLetStar(rest, e), env, vs[0], r);
    }
  }

  /** The environment with the first i names bound. */
  function BoundFirst(bindings: seq<(string, Exp)>, vs: seq<Exp>, env: Env, i: nat): Env
    requires i <= |vs| == |bindings|
  {
    if i == 0 then env else Bind(bindings[i - 1].0, vs[i - 1], BoundFirst(bindings, vs, env, i - 1))
  }

  lemma {:induction false} FirstBound(bindings: seq<(string, Exp)>, vs: seq<Exp>, env: Env, i: nat)
    requires i < |vs| == |bindings|
    ensures BoundFirst(bindings[1..], vs[1..], Bind(bindings[0].0, vs[0], env), i) == BoundFirst(bindings, vs, env, i + 1)
  {
    if i > 0 {
      FirstBound(bindings, vs, env, i - 1);
    }
  }

  lemma {:induction false} MLetMeaning(x: string, e1: Exp, body: Exp, env: Env, v: Exp, r: Result)
    requires Outcome(e1, env, Val(v))
    ensures Outcome(MLet(x, e1, body), env, r) <==> Outcome(body, Bind(x, v, env), r)
  {
    hide Eval;
    var n1: nat :| Eval(e1, env, n1) == Val(v);
    if n: nat :| r != CutOff && Eval(MLet(x, e1, body), env, n) == r {
      MoreCalls(MLet(x, e1, body), env, n, n + n1 + 1);
      MoreCalls(e1, env, n1, n + n1);
      MLetAt(x, e1, body, env, v, n + n1);
    }
    if n: nat :| r != CutOff && Eval(body, Bind(x, v, env), n) == r {
      MoreCalls(body, Bind(x, v, env), n, n + n1);
      MoreCalls(e1, env, n1, n + n1);
      MLetAt(x, e1, body, env, v, n + n1);
    }
  }

  lemma {:induction false} MLetAt(x: string, e1: Exp, body: Exp, env: Env, v: Exp, n: nat)
    requires Eval(e1, env, n) == Val(v)
    ensures Eval(MLet(x, e1, body), env, n + 1) == Eval(body, Bind(x, v, env), n)
  {
  }

  /** isaunit is 1 for the unit value and 0 for any other. */
  lemma {:induction false} IsAUnitMeaning(e: Exp, env: Env, v: Exp)
    requires Outcome(e, env, Val(v))
    ensures Outcome(IsAUnit(e), env, Val(Int(if v.AUnit? then 1 else 0)))
  {
    var n: nat :| Eval(e, env, n) == Val(v);
    assert Eval(IsAUnit(e), env, n + 1) == Val(Int(if v.AUnit? then 1 else 0));
  }

  /** ifaunit takes its second argument if the first is the unit value and its third otherwise. */
  lemma {:induction false} IfAUnitMeaning(e1: Exp, e2: Exp, e3: Exp, env: Env, v: Exp, r: Result)
    requires Outcome(e1, env, Val(v))
    ensures Outcome(IfAUnit(e1, e2, e3), env, r) <==> Outcome(if v.AUnit? then e2 else e3, env, r)
  {
    hide Eval, IfAUnit;
    var n1: nat :| Eval(e1, env, n1) == Val(v);
    var branch := if v.AUnit? then e2 else e3;
    if n: nat :| r != CutOff && Eval(IfAUnit(e1, e2, e3), env, n) == r {
      MoreCalls(IfAUnit(e1, e2, e3), env, n, n + n1 + 2);
      IfAUnitAt(e1, e2, e3, env, v, n1, n + n1);
    }
    if n: nat :| r != CutOff && Eval(branch, env, n) == r {
      MoreCalls(branch, env, n, n + n1 + 1);
      IfAUnitAt(e1, e2, e3, env, v, n1, n + n1);
    }
  }

  lemma {:induction false} IfAUnitAt(e1: Exp, e2: Exp, e3: Exp, env: Env, v: Exp, n1: nat, n: nat)
    requires Eval(e1, env, n1) == Val(v) && n >= n1
    ensures Eval(IfAUnit(e1, e2, e3), env, n + 2) == Eval(if v.AUnit? then e2 else e3, env, n + 1)
  {
    MoreCalls(e1, env, n1, n);
    assert Eval(IsAUnit(e1), env, n + 1) == Val(Int(if v.AUnit? then 1 else 0));
    assert Eval(Int(0), env, n + 1) == Val(Int(0));
  }

  /** x is v here, and in the environment of every closure bound here to another name. */
  ghost predicate Everywhere(env: Env, x: string, v: Exp)
    decreases EnvSize(env)
  {
    && Lookup(env, x) == Val(v)
    && forall y :: y != x && Lookup(env, y).Val? && Lookup(env, y).v.Closure? ==> Everywhere(Lookup(env, y).v.env, x, v)
  }

  /** Every other name means the same, but for closures, and those differ only in their environments and there again
      only in x. */
  ghost predicate SameBut(env: Env, env': Env, x: string)
    decreases EnvSize(env)
  {
    forall y :: y != x ==>
      var r, r' := Lookup(env, y), Lookup(env', y);
      && (r.Val? <==> r'.Val?)
      && (r.Val? && !r.v.Closure? ==> r' == r)
      && (r.Val? && r.v.Closure? ==>
            && r'.v.Closure? && r'.v.nameopt == r.v.nameopt && r'.v.formal == r.v.formal && r'.v.body == r.v.body
            && SameBut(r.v.env, r'.v.env, x))
  }

  /** glet gives x its value everywhere, also where functions defined before look it up, and changes nothing else. */
  lemma {:induction false} GLetEverywhere(env: Env, x: string, v: Exp)
    ensures Everywhere(Override(env, x, v), x, v) && SameBut(env, Override(env, x, v), x)
    decreases EnvSize(env)
  {
    OverrideLookup(env, x, v, x);
    forall y | y != x && Lookup(env, y).Val? && Lookup(env, y).v.Closure?
      ensures Everywhere(Override(Lookup(env, y).v.env, x, v), x, v)
      ensures SameBut(Lookup(env, y).v.env, Override(Lookup(env, y).v.env, x, v), x)
    {
      GLetEverywhere(Lookup(env, y).v.env, x, v);
    }
    forall y | y != x
      ensures Lookup(Override(env, x, v), y)
              == if Lookup(env, y).Val? then Val(Rewritten(Lookup(env, y).v, x, v)) else Error
    {
      OverrideLookup(env, x, v, y);
    }
  }

  /** What glet's body sees: its name has the value everywhere, and nothing else is different. */
  lemma {:induction false} GLetMeaning(x: string, e1: Exp, body: Exp, env: Env, v: Exp)
    requires Outcome(e1, env, Val(v))
    ensures exists env' :: Everywhere(env', x, v) && SameBut(env, env', x) &&
                           forall r :: Outcome(GLet(x, e1, body), env, r) <==> Outcome(body, env', r)
  {
    GLetEverywhere(env, x, v);
    var env' := Override(env, x, v);
    hide Override, Everywhere, SameBut;
    forall r
      ensures Outcome(GLet(x, e1, body), env, r) <==> Outcome(body, env', r)
    {
      GLetRuns(x, e1, body, env, v, r);
    }
  }

  lemma {:induction false} GLetRuns(x: string, e1: Exp, body: Exp, env: Env, v: Exp, r: Result)
    requires Outcome(e1, env, Val(v))
    ensures Outcome(GLet(x, e1, body), env, r) <==> Outcome(body, Override(env, x, v), r)
  {
    hide Eval, Override;
    var n1: nat :| Eval(e1, env, n1) == Val(v);
    if n: nat :| r != CutOff && Eval(GLet(x, e1, body), env, n) == r {
      MoreCalls(GLet(x, e1, body), env, n, n + n1 + 1);
      MoreCalls(e1, env, n1, n + n1);
      GLetAt(x, e1, body, env, v, n + n1);
    }
    if n: nat :| r != CutOff && Eval(body, Override(env, x, v), n) == r {
      MoreCalls(body, Override(env, x, v), n, n + n1);
      MoreCalls(e1, env, n1, n + n1);
      GLetAt(x, e1, body, env, v, n + n1);
    }
  }

  lemma {:induction false} GLetAt(x: string, e1: Exp, body: Exp, env: Env, v: Exp, n: nat)
    requires Eval(e1, env, n) == Val(v)
    ensures Eval(GLet(x, e1, body), env, n + 1) == Eval(body, Override(env, x, v), n)
  {
  }

  // ---------- bindings that do not matter ----------

  /** The variables that an expression looks up outside itself. A closure brings its own environment. */
  function Free(e: Exp): set<string> {
    match e
    case Var(x) => {x}
    case Int(_) => {}
    case Add(e1, e2) => Free(e1) + Free(e2)
    case IfGreater(e1, e2, e3, e4) => Free(e1) + Free(e2) + Free(e3) + Free(e4)
    case Fun(name, formal, body) => FreeInFun(name, formal, Free(body))
    case Call(f, a) => Free(f) + Free(a)
    case MLet(x, e1, body) => Free(e1) + (Free(body) - {x})
    case GLet(x, e1, body) => Free(e1) + (Free(body) - {x})
    case APair(e1, e2) => Free(e1) + Free(e2)
    case Fst(e1) => Free(e1)
    case Snd(e1) => Free(e1)
    case AUnit => {}
    case IsAUnit(e1) => Free(e1)
    case Closure(_, _, _, _) => {}
  }

  function FreeInFun(name: Option<string>, formal: string, names: set<string>): set<string> {
    names - {formal} - if name.Some? then {name.value} else {}
  }

  /** The same value, but for what closures bind to names that their functions do not look up. */
  ghost predicate Alike(v: Exp, v': Exp)
    decreases Size(v)
  {
    match v
    case APair(v1, v2) => v'.APair? && Alike(v1, v'.e1) && Alike(v2, v'.e2)
    case Closure(env, name, formal, body) =>
      && v'.Closure? && v'.nameopt == name && v'.formal == formal && v'.body == body
      && AgreeOn(FreeInFun(name, formal, Free(body)), env, v'.env)
    case _ => v == v'
  }

  /** Two environments that give these names the same values, or none. */
  ghost predicate AgreeOn(names: set<string>, env: Env, env': Env)
    decreases EnvSize(env)
  {
    forall x :: x in names ==>
      && (Lookup(env, x).Val? <==> Lookup(env', x).Val?)
      && (Lookup(env, x).Val? ==> Alike(Lookup(env, x).v, Lookup(env', x).v))
  }

  ghost predicate ResultsAlike(r: Result, r': Result) {
    if r.Val? then r'.Val? && Alike(r.v, r'.v) else r == r'
  }

  lemma {:induction false} AlikeItself(v: Exp)
    ensures Alike(v, v)
    decreases Size(v)
  {
    match v
    case APair(v1, v2) =>
      AlikeItself(v1);
      AlikeItself(v2);
    case Closure(env, name, formal, body) => AgreesWithItself(FreeInFun(name, formal, Free(body)), env);
    case _ =>
  }

  lemma {:induction false} AgreesWithItself(names: set<string>, env: Env)
    ensures AgreeOn(names, env, env)
    decreases EnvSize(env)
  {
    forall x | x in names && Lookup(env, x).Val?
      ensures Alike(Lookup(env, x).v, Lookup(env, x).v)
    {
      AlikeItself(Lookup(env, x).v);
    }
  }

  /** A binding for another name changes nothing. */
  lemma {:induction false} UnusedBinding(names: set<string>, x: string, v: Exp, env: Env)
    requires x !in names
    ensures AgreeOn(names, Bind(x, v, env), env) && AgreeOn(names, env, Bind(x, v, env))
  {
    AgreesWithItself(names, env);
  }

  /** What glet makes of a value bound to another name. */
  function Rewritten(w: Exp, x: string, v: Exp): Exp {
    if w.Closure? then Closure(Override(w.env, x, v), w.nameopt, w.formal, w.body) else w
  }

  lemma {:induction false} OverrideLookup(env: Env, x: string, v: Exp, y: string)
    ensures Lookup(Override(env, x, v), y)
            == if y == x then Val(v) else if Lookup(env, y).Val? then Val(Rewritten(Lookup(env, y).v, x, v)) else Error
  {
    if env.Bind? {
      OverrideLookup(env.rest, x, v, y);
    }
  }

  /** glet's rewriting of environments, down to those of closures in closures, keeps agreement. */
  lemma {:induction false} OverrideAgrees(names: set<string>, env: Env, env': Env, x: string, v: Exp, v': Exp)
    requires AgreeOn(names - {x}, env, env') && Alike(v, v')
    ensures AgreeOn(names, Override(env, x, v), Override(env', x, v'))
    decreases EnvSize(env)
  {
    forall y | y in names
      ensures ResultsAlike(Lookup(Override(env, x, v), y), Lookup(Override(env', x, v'), y))
    {
      OverrideLookup(env, x, v, y);
      OverrideLookup(env', x, v', y);
      if y != x && Lookup(env, y).Val? {
        var w, w' := Lookup(env, y).v, Lookup(env', y).v;
        assert Alike(w, w');
        if w.Closure? {
          var free := FreeInFun(w.nameopt, w.formal, Free(w.body));
          FewerNames(free, free - {x}, w.env, w'.env);
          OverrideAgrees(free, w.env, w'.env, x, v, v');
        }
      }
    }
  }

  lemma {:induction false} FewerNames(names: set<string>, fewer: set<string>, env: Env, env': Env)
    requires AgreeOn(names, env, env') && fewer <= names
    ensures AgreeOn(fewer, env, env')
  {
  }

  lemma {:induction false} BoundBoth(names: set<string>, x: string, v: Exp, v': Exp, env: Env, env': Env)
    requires AgreeOn(names - {x}, env, env') && Alike(v, v')
    ensures AgreeOn(names, Bind(x, v, env), Bind(x, v', env'))
  {
    forall y | y in names
      ensures ResultsAlike(Lookup(Bind(x, v, env), y), Lookup(Bind(x, v', env'), y))
    {
      assert y != x ==> y in names - {x};
    }
  }

  /** Weakening: the outcome of an expression depends only on what its free variables are bound to. */
  lemma {:induction false} Weakening(e: Exp, env: Env, env': Env, n: nat)
    requires AgreeOn(Free(e), env, env')
    ensures ResultsAlike(Eval(e, env, n), Eval(e, env', n))
    decreases n, 1
  {
    if n > 0 {
      match e
      case Var(x) =>
      case Int(_) =>
      case AUnit =>
      case Fun(_, _, _) =>
      case Closure(_, _, _, _) => AlikeItself(e);
      case Add(e1, e2) => WeakeningPair(e, env, env', n);
      case APair(e1, e2) => WeakeningPair(e, env, env', n);
      case IfGreater(_, _, _, _) => WeakeningIf(e, env, env', n);
      case Call(f, a) => WeakeningCall(f, a, env, env', n);
      case MLet(_, _, _) => WeakeningLet(e, env, env', n);
      case GLet(_, _, _) => WeakeningLet(e, env, env', n);
      case Fst(_) => WeakeningOne(e, env, env', n);
      case Snd(_) => WeakeningOne(e, env, env', n);
      case IsAUnit(_) => WeakeningOne(e, env, env', n);
    }
  }

  lemma {:induction false} WeakeningPart(e: Exp, part: Exp, env: Env, env': Env, n: nat)
    requires AgreeOn(Free(e), env, env') && Free(part) <= Free(e)
    ensures ResultsAlike(Eval(part, env, n), Eval(part, env', n))
    decreases n, 2
  {
    FewerNames(Free(e), Free(part), env, env');
    Weakening(part, env, env', n);
  }

  lemma {:induction false} WeakeningOne(e: Exp, env: Env, env': Env, n: nat)
    requires n > 0 && (e.Fst? || e.Snd? || e.IsAUnit?) && AgreeOn(Free(e), env, env')
    ensures ResultsAlike(Eval(e, env, n), Eval(e, env', n))
    decreases n, 0
  {
    WeakeningPart(e, e.e, env, env', n - 1);
    hide AgreeOn;
  }

  lemma {:induction false} WeakeningPair(e: Exp, env: Env, env': Env, n: nat)
    requires n > 0 && (e.Add? || e.APair?) && AgreeOn(Free(e), env, env')
    ensures ResultsAlike(Eval(e, env, n), Eval(e, env', n))
    decreases n, 0
  {
    WeakeningPart(e, e.e1, env, env', n - 1);
    WeakeningPart(e, e.e2, env, env', n - 1);
    hide AgreeOn;
  }

  lemma {:induction false} WeakeningIf(e: Exp, env: Env, env': Env, n: nat)
    requires n > 0 && e.IfGreater? && AgreeOn(Free(e), env, env')
    ensures ResultsAlike(Eval(e, env, n), Eval(e, env', n))
    decreases n, 0
  {
    WeakeningPart(e, e.e1, env, env', n - 1);
    WeakeningPart(e, e.e2, env, env', n - 1);
    WeakeningPart(e, e.e3, env, env', n - 1);
    WeakeningPart(e, e.e4, env, env', n - 1);
    hide AgreeOn;
  }

  lemma {:induction false} WeakeningLet(e: Exp, env: Env, env': Env, n: nat)
    requires n > 0 && (e.MLet? || e.GLet?) && AgreeOn(Free(e), env, env')
    ensures ResultsAlike(Eval(e, env, n), Eval(e, env', n))
    decreases n, 0
  {
    WeakeningPart(e, e.e, env, env', n - 1);
    FewerNames(Free(e), Free(e.body) - {e.x}, env, env');
    var r, r' := Eval(e.e, env, n - 1), Eval(e.e, env', n - 1);
    hide AgreeOn, Alike;
    if r.Val? {
      if e.MLet? {
        BoundBoth(Free(e.body), e.x, r.v, r'.v, env, env');
        Weakening(e.body, Bind(e.x, r.v, env), Bind(e.x, r'.v, env'), n - 1);
      } else {
        OverrideAgrees(Free(e.body), env, env', e.x, r.v, r'.v);
        Weakening(e.body, Override(env, e.x, r.v), Override(env', e.x, r'.v), n - 1);
      }
    }
  }

  lemma {:induction false} WeakeningCall(f: Exp, a: Exp, env: Env, env': Env, n: nat)
    requires n > 0 && AgreeOn(Free(Call(f, a)), env, env')
    ensures ResultsAlike(Eval(Call(f, a), env, n), Eval(Call(f, a), env', n))
    decreases n, 0
  {
    var i := n - 1;
    WeakeningPart(Call(f, a), f, env, env', i);
    WeakeningPart(Call(f, a), a, env, env', i);
    var r1, r2, r1', r2' := Eval(f, env, i), Eval(a, env, i), Eval(f, env', i), Eval(a, env', i);
    if r1.Val? && r2.Val? && r1.v.Closure? {
      CallEnvAgrees(r1.v, r2.v, r1'.v, r2'.v);
      hide CallEnv, AgreeOn;
      Weakening(r1.v.body, CallEnv(r1.v, r2.v), CallEnv(r1'.v, r2'.v), i);
    }
  }

  lemma {:induction false} CallEnvAgrees(c: Exp, v: Exp, c': Exp, v': Exp)
    requires c.Closure? && Alike(c, c') && Alike(v, v')
    ensures c'.Closure? && c'.body == c.body && AgreeOn(Free(c.body), CallEnv(c, v), CallEnv(c', v'))
  {
    var names := Free(c.body) - if c.nameopt.Some? then {c.nameopt.value} else {};
    assert names - {c.formal} == FreeInFun(c.nameopt, c.formal, Free(c.body));
    BoundBoth(names, c.formal, v, v', c.env, c'.env);
    if c.nameopt.Some? {
      BoundBoth(Free(c.body), c.nameopt.value, c, c', Bind(c.formal, v, c.env), Bind(c.formal, v', c'.env));
    }
  }

  // ---------- ifeq ----------

  function MLetStar(bindings: seq<(string, Exp)>, e: Exp): Exp {
    if bindings == [] then e else MLet(bindings[0].0, bindings[0].1, MLetStar(bindings[1..], e))
  }

  function IfAUnit(e1: Exp, e2: Exp, e3: Exp): Exp { IfGreater(IsAUnit(e1), Int(0), e2, e3) }

  function IfEq(e1: Exp, e2: Exp, e3: Exp, e4: Exp): Exp {
    MLetStar([("_x", e1), ("_y", e2)],
             IfGreater(Var("_x"), Var("_y"), e4, IfGreater(Var("_y"), Var("_x"), e4, e3)))
  }

  function IfEqBody(e3: Exp, e4: Exp): Exp {
    IfGreater(Var("_x"), Var("_y"), e4, IfGreater(Var("_y"), Var("_x"), e4, e3))
  }

  /** The environment in which ifeq's branches are evaluated. */
  function IfEqEnv(env: Env, v: Exp, w: Exp): Env { Bind("_y", w, Bind("_x", v, env)) }

  lemma {:induction false} IfEqUnfolds(e1: Exp, e2: Exp, e3: Exp, e4: Exp)
    ensures IfEq(e1, e2, e3, e4) == MLet("_x", e1, MLet("_y", e2, IfEqBody(e3, e4)))
  {
    var body, bindings, rest := IfEqBody(e3, e4), [("_x", e1), ("_y", e2)], [("_y", e2)];
    assert rest[1..] == [] && MLetStar(rest[1..], body) == body;
    assert MLetStar(rest, body) == MLet("_y", e2, body);
    assert bindings[1..] == rest;
    assert MLetStar(bindings, body) == MLet("_x", e1, MLetStar(rest, body));
  }

  lemma {:induction false} HiddenLookup(env: Env, v: Exp, w: Exp)
    ensures Lookup(IfEqEnv(env, v, w), "_x") == Val(v) && Lookup(IfEqEnv(env, v, w), "_y") == Val(w)
  {
    assert "_x"[1] != "_y"[1];
  }

  /** The comparison of two integers, with its branches in ifeq's environment. */
  lemma {:induction false} IfEqBodyAt(e3: Exp, e4: Exp, env: Env, a: int, b: int, n: nat)
    requires n >= 3
    ensures Eval(IfEqBody(e3, e4), IfEqEnv(env, Int(a), Int(b)), n)
            == Eval(if a == b then e3 else e4, IfEqEnv(env, Int(a), Int(b)), if a > b then n - 1 else n - 2)
  {
    var inner := IfEqEnv(env, Int(a), Int(b));
    HiddenLookup(env, Int(a), Int(b));
    assert Eval(Var("_x"), inner, n - 1) == Val(Int(a)) && Eval(Var("_y"), inner, n - 1) == Val(Int(b));
    assert Eval(Var("_x"), inner, n - 2) == Val(Int(a)) && Eval(Var("_y"), inner, n - 2) == Val(Int(b));
    var first, second := IfEqBody(e3, e4), IfGreater(Var("_y"), Var("_x"), e4, e3);
    assert Eval(first, inner, n) == Eval(if a > b then e4 else second, inner, n - 1);
    assert Eval(second, inner, n - 1) == Eval(if b > a then e4 else e3, inner, n - 2);
  }

  /** The two bindings of ifeq, then its comparison. */
  lemma {:induction false} IfEqRuns(e1: Exp, e2: Exp, e3: Exp, e4: Exp, env: Env, v: Exp, w: Exp, n: nat)
    requires n >= 3 && Eval(e1, env, n - 1) == Val(v) && Eval(e2, Bind("_x", v, env), n - 2) == Val(w)
    ensures Eval(IfEq(e1, e2, e3, e4), env, n) == Eval(IfEqBody(e3, e4), IfEqEnv(env, v, w), n - 2)
  {
    IfEqUnfolds(e1, e2, e3, e4);
    var body := IfEqBody(e3, e4);
    hide IfEq, IfEqBody;
    assert Eval(MLet("_y", e2, body), Bind("_x", v, env), n - 1) == Eval(body, IfEqEnv(env, v, w), n - 2);
  }

  /** The variables of ifeq's expansion. */
  const HIDDEN: set<string> := {"_x", "_y"}

  /** The bindings of ifeq's expansion do not matter to what does not look them up. */
  lemma {:induction false} HiddenBindings(names: set<string>, env: Env, v: Exp, w: Exp)
    ensures "_x" !in names ==> AgreeOn(names, Bind("_x", v, env), env) && AgreeOn(names, env, Bind("_x", v, env))
    ensures names !! HIDDEN ==> AgreeOn(names, IfEqEnv(env, v, w), env) && AgreeOn(names, env, IfEqEnv(env, v, w))
  {
    AgreesWithItself(names, env);
  }

  lemma {:induction false} IfEqAt(e1: Exp, e2: Exp, e3: Exp, e4: Exp, env: Env, a: int, b: int, n: nat)
    requires "_x" !in Free(e2) && Free(if a == b then e3 else e4) !! HIDDEN
    requires n >= 5 && Eval(e1, env, n - 1) == Val(Int(a)) && Eval(e2, env, n - 2) == Val(Int(b))
    ensures var r, s := Eval(IfEq(e1, e2, e3, e4), env, n),
                        Eval(if a == b then e3 else e4, env, if a > b then n - 3 else n - 4);
            ResultsAlike(r, s) && ResultsAlike(s, r)
  {
    var branch, k := if a == b then e3 else e4, if a > b then n - 3 else n - 4;
    var outer, inner := Bind("_x", Int(a), env), IfEqEnv(env, Int(a), Int(b));
    HiddenBindings(Free(e2), env, Int(a), Int(b));
    HiddenBindings(Free(branch), env, Int(a), Int(b));
    Weakening(e2, env, outer, n - 2);
    IfEqRuns(e1, e2, e3, e4, env, Int(a), Int(b), n);
    IfEqBodyAt(e3, e4, env, a, b, n - 2);
    Weakening(branch, inner, env, k);
    Weakening(branch, env, inner, k);
  }

  ghost predicate HasAlike(e: Exp, env: Env, r: Result) {
    exists s :: Outcome(e, env, s) && ResultsAlike(r, s)
  }

  /** What ifeq means, in any environment: when its first two arguments give integers, it ends exactly when the branch
      that they select does, with the same error or the same value up to bindings that no closure in it looks up. */
  lemma {:induction false} IfEqMeaning(e1: Exp, e2: Exp, e3: Exp, e4: Exp, env: Env, a: int, b: int)
    requires "_x" !in Free(e2) && Free(if a == b then e3 else e4) !! HIDDEN
    requires Outcome(e1, env, Val(Int(a))) && Outcome(e2, env, Val(Int(b)))
    ensures var branch := if a == b then e3 else e4;
            && (forall r :: Outcome(IfEq(e1, e2, e3, e4), env, r) ==> HasAlike(branch, env, r))
            && (forall r :: Outcome(branch, env, r) ==> HasAlike(IfEq(e1, e2, e3, e4), env, r))
  {
    var ifeq, branch := IfEq(e1, e2, e3, e4), if a == b then e3 else e4;
    var n1: nat :| Eval(e1, env, n1) == Val(Int(a));
    var n2: nat :| Eval(e2, env, n2) == Val(Int(b));
    hide IfEq, Alike, Free, Eval;
    forall r, n: nat | r != CutOff && Eval(ifeq, env, n) == r
      ensures HasAlike(branch, env, r)
    {
      var m := n + n1 + n2 + 5;
      IfEqLater(e1, e2, env, a, b, n1, n2, m);
      MoreCalls(ifeq, env, n, m);
      IfEqAt(e1, e2, e3, e4, env, a, b, m);
      assert Outcome(branch, env, Eval(branch, env, if a > b then m - 3 else m - 4));
    }
    forall r, n: nat | r != CutOff && Eval(branch, env, n) == r
      ensures HasAlike(ifeq, env, r)
    {
      var m := n + n1 + n2 + 5;
      IfEqLater(e1, e2, env, a, b, n1, n2, m);
      MoreCalls(branch, env, n, if a > b then m - 3 else m - 4);
      IfEqAt(e1, e2, e3, e4, env, a, b, m);
      assert Outcome(ifeq, env, Eval(ifeq, env, m));
    }
  }

  lemma {:induction false} IfEqLater(e1: Exp, e2: Exp, env: Env, a: int, b: int, n1: nat, n2: nat, m: nat)
    requires Eval(e1, env, n1) == Val(Int(a)) && Eval(e2, env, n2) == Val(Int(b)) && m >= n1 + n2 + 5
    ensures Eval(e1, env, m - 1) == Val(Int(a)) && Eval(e2, env, m - 2) == Val(Int(b))
  {
    MoreCalls(e1, env, n1, m - 1);
    MoreCalls(e2, env, n2, m - 2);
  }

  /** Anything but two integers cannot be compared. */
  lemma {:induction false} IfEqBodyError(e3: Exp, e4: Exp, env: Env, v: Exp, w: Exp, n: nat)
    requires n >= 2 && !(v.Int? && w.Int?)
    ensures Eval(IfEqBody(e3, e4), IfEqEnv(env, v, w), n) == Error
  {
    var inner := IfEqEnv(env, v, w);
    HiddenLookup(env, v, w);
    assert Eval(Var("_x"), inner, n - 1) == Val(v) && Eval(Var("_y"), inner, n - 1) == Val(w);
  }

  /** Compared with anything but an integer, ifeq is an error. */
  lemma {:induction false} IfEqOfNonNumbers(e1: Exp, e2: Exp, e3: Exp, e4: Exp, env: Env, v: Exp, w: Exp)
    requires "_x" !in Free(e2)
    requires Outcome(e1, env, Val(v)) && Outcome(e2, env, Val(w)) && !(v.Int? && w.Int?)
    ensures Outcome(IfEq(e1, e2, e3, e4), env, Error)
  {
    var n1: nat :| Eval(e1, env, n1) == Val(v);
    var n2: nat :| Eval(e2, env, n2) == Val(w);
    IfEqErrorAt(e1, e2, e3, e4, env, v, w, n1, n2);
  }

  lemma {:induction false} IfEqErrorAt(e1: Exp, e2: Exp, e3: Exp, e4: Exp, env: Env, v: Exp, w: Exp, n1: nat, n2: nat)
    requires "_x" !in Free(e2) && !(v.Int? && w.Int?)
    requires Eval(e1, env, n1) == Val(v) && Eval(e2, env, n2) == Val(w)
    ensures Eval(IfEq(e1, e2, e3, e4), env, n1 + n2 + 5) == Error
  {
    hide *;
    var m := n1 + n2 + 5;
    var w' := SecondArgument(e1, e2, env, v, w, n1, n2, m);
    IfEqBodyError(e3, e4, env, v, w', m - 2);
    IfEqRuns(e1, e2, e3, e4, env, v, w', m);
  }

  /** An error in the first or, after a value of the first, in the second argument is the error of ifeq. */
  lemma {:induction false} IfEqErrors(e1: Exp, e2: Exp, e3: Exp, e4: Exp, env: Env)
    requires Outcome(e1, env, Error) || ("_x" !in Free(e2) && Outcome(e2, env, Error) && exists v :: Outcome(e1, env, Val(v)))
    ensures Outcome(IfEq(e1, e2, e3, e4), env, Error)
  {
    IfEqUnfolds(e1, e2, e3, e4);
    var body := IfEqBody(e3, e4);
    if Outcome(e1, env, Error) {
      var n: nat :| Eval(e1, env, n) == Error;
      hide IfEqBody;
      assert Eval(MLet("_x", e1, MLet("_y", e2, body)), env, n + 1) == Error;
    } else {
      var v :| Outcome(e1, env, Val(v));
      var n1: nat :| Eval(e1, env, n1) == Val(v);
      var n2: nat :| Eval(e2, env, n2) == Error;
      var outer, m := Bind("_x", v, env), n1 + n2 + 2;
      MoreCalls(e1, env, n1, m - 1);
      MoreCalls(e2, env, n2, m - 2);
      HiddenBindings(Free(e2), env, v, v);
      Weakening(e2, env, outer, m - 2);
      hide IfEqBody, Free;
      assert Eval(MLet("_y", e2, body), outer, m - 1) == Error;
      assert Eval(MLet("_x", e1, MLet("_y", e2, body)), env, m) == Error;
    }
  }

  /** Bound to _x, the first argument does not change what sort of value the second gives. */
  lemma {:induction false} SecondArgument(e1: Exp, e2: Exp, env: Env, v: Exp, w: Exp, n1: nat, n2: nat, m: nat) returns (w': Exp)
    requires "_x" !in Free(e2) && m >= n1 + n2 + 5
    requires Eval(e1, env, n1) == Val(v) && Eval(e2, env, n2) == Val(w)
    ensures Eval(e1, env, m - 1) == Val(v) && Eval(e2, Bind("_x", v, env), m - 2) == Val(w') && (w'.Int? <==> w.Int?)
  {
    MoreCalls(e1, env, n1, m - 1);
    MoreCalls(e2, env, n2, m - 2);
    hide Eval;
    var outer := Bind("_x", v, env);
    HiddenBindings(Free(e2), env, v, v);
    Weakening(e2, env, outer, m - 2);
    w' := Eval(e2, outer, m - 2).v;
  }

  // ---------- mupl-map ----------

  function MapGenBody(): Exp {
    IfAUnit(Var("lst"), AUnit,
            APair(Call(Var("fn"), Fst(Var("lst"))), Call(Var("mupl-map-gen"), Snd(Var("lst")))))
  }

  function MuplMap(): Exp {
    Fun(Some("mupl-map"), "fn", Fun(Some("mupl-map-gen"), "lst", MapGenBody()))
  }

  /** A MUPL list: pairs, ended by the unit value. */
  function ListOf(vs: seq<Exp>): Exp {
    if vs == [] then AUnit else APair(vs[0], ListOf(vs[1..]))
  }

  /** Applying closure c to v ends with w. */
  ghost predicate Applies(c: Exp, v: Exp, w: Exp) {
    c.Closure? && Outcome(c.body, CallEnv(c, v), Val(w))
  }

  /** What mupl-map makes of a function: the generator, in an environment that binds the function to fn. */
  function Generator(c: Exp, env: Env): (g: Exp)
    ensures g.Closure? && g.body == MapGenBody()
  {
    Closure(Bind("mupl-map", Closure(env, Some("mupl-map"), "fn", Fun(Some("mupl-map-gen"), "lst", MapGenBody())),
                 Bind("fn", c, env)),
            Some("mupl-map-gen"), "lst", MapGenBody())
  }

  lemma {:induction false} GeneratorLookup(c: Exp, env: Env, list: Exp)
    ensures var inner := CallEnv(Generator(c, env), list);
            && Lookup(inner, "lst") == Val(list) && Lookup(inner, "fn") == Val(c)
            && Lookup(inner, "mupl-map-gen") == Val(Generator(c, env))
  {
    assert |"lst"| == 3 && |"fn"| == 2 && |"mupl-map-gen"| == 12 && |"mupl-map"| == 8;
    var g := Generator(c, env);
    var inner := CallEnv(g, list);
    assert inner == Bind("mupl-map-gen", g, Bind("lst", list, g.env));
    assert g.env.Bind? && g.env.name == "mupl-map" && g.env.rest == Bind("fn", c, env);
    assert Lookup(g.env, "fn") == Lookup(g.env.rest, "fn") == Val(c);
    assert Lookup(inner.rest, "fn") == Lookup(g.env, "fn");
  }

  lemma {:induction false} CallAt(f: Exp, a: Exp, env: Env, c: Exp, v: Exp, n: nat)
    requires n > 0 && Eval(f, env, n - 1) == Val(c) && c.Closure? && Eval(a, env, n - 1) == Val(v)
    ensures Eval(Call(f, a), env, n) == Eval(c.body, CallEnv(c, v), n - 1)
  {
    hide CallEnv;
  }

  /** The generator's test, and the branch it takes. */
  lemma {:induction false} GeneratorTest(c: Exp, env: Env, list: Exp, n: nat)
    requires n >= 4
    ensures var inner := CallEnv(Generator(c, env), list);
            Eval(MapGenBody(), inner, n)
            == if list.AUnit? then Val(AUnit)
               else Eval(APair(Call(Var("fn"), Fst(Var("lst"))), Call(Var("mupl-map-gen"), Snd(Var("lst")))), inner, n - 1)
  {
    GeneratorLookup(c, env, list);
    var inner := CallEnv(Generator(c, env), list);
    assert Eval(Var("lst"), inner, n - 2) == Val(list);
    assert Eval(IsAUnit(Var("lst")), inner, n - 1) == Val(Int(if list.AUnit? then 1 else 0));
    assert Eval(Int(0), inner, n - 1) == Val(Int(0));
    var pair := APair(Call(Var("fn"), Fst(Var("lst"))), Call(Var("mupl-map-gen"), Snd(Var("lst"))));
    assert MapGenBody() == IfGreater(IsAUnit(Var("lst")), Int(0), AUnit, pair);
    hide CallEnv, Generator, Lookup;
    assert Eval(AUnit, inner, n - 1) == Val(AUnit);
    assert Eval(MapGenBody(), inner, n) == Eval(if list.AUnit? then AUnit else pair, inner, n - 1);
  }

  /** One element: the function on the head, then the generator on the tail. */
  lemma {:induction false} GeneratorStep(c: Exp, env: Env, head: Exp, tail: Exp, n: nat)
    requires n >= 5 && c.Closure?
    ensures var r1 := Eval(c.body, CallEnv(c, head), n - 3);
            var r2 := Eval(MapGenBody(), CallEnv(Generator(c, env), tail), n - 3);
            Eval(MapGenBody(), CallEnv(Generator(c, env), APair(head, tail)), n)
            == if InOrder(r1, r2).Val? then Val(APair(r1.v, r2.v)) else InOrder(r1, r2)
  {
    var inner := CallEnv(Generator(c, env), APair(head, tail));
    GeneratorTest(c, env, APair(head, tail), n);
    GeneratorLookup(c, env, APair(head, tail));
    var g := Generator(c, env);
    assert g.Closure? && g.body == MapGenBody();
    hide MapGenBody, Generator, CallEnv;
    assert Eval(Var("lst"), inner, n - 4) == Val(APair(head, tail));
    assert Eval(Fst(Var("lst")), inner, n - 3) == Val(head) && Eval(Snd(Var("lst")), inner, n - 3) == Val(tail);
    assert Eval(Var("fn"), inner, n - 3) == Val(c) && Eval(Var("mupl-map-gen"), inner, n - 3) == Val(g);
    CallAt(Var("fn"), Fst(Var("lst")), inner, c, head, n - 2);
    CallAt(Var("mupl-map-gen"), Snd(Var("lst")), inner, g, tail, n - 2);
  }

  lemma {:induction false} GeneratorMaps(c: Exp, env: Env, vs: seq<Exp>, ws: seq<Exp>) returns (n: nat)
    requires c.Closure? && |vs| == |ws| && forall i :: 0 <= i < |vs| ==> Applies(c, vs[i], ws[i])
    ensures Eval(MapGenBody(), CallEnv(Generator(c, env), ListOf(vs)), n) == Val(ListOf(ws))
    decreases |vs|
  {
    if vs == [] {
      n := 4;
      GeneratorTest(c, env, AUnit, n);
    } else {
      var m := GeneratorMaps(c, env, vs[1..], ws[1..]);
      assert Applies(c, vs[0], ws[0]);
      var d: nat :| Eval(c.body, CallEnv(c, vs[0]), d) == Val(ws[0]);
      hide Eval, MapGenBody, Generator, CallEnv;
      n := GeneratorMore(c, env, vs[0], ListOf(vs[1..]), ws[0], ListOf(ws[1..]), d, m);
    }
  }

  lemma {:induction false} GeneratorMore(c: Exp, env: Env, head: Exp, tail: Exp, w: Exp, rest: Exp, d: nat, m: nat) returns (n: nat)
    requires c.Closure? && Eval(c.body, CallEnv(c, head), d) == Val(w)
    requires Eval(MapGenBody(), CallEnv(Generator(c, env), tail), m) == Val(rest)
    ensures Eval(MapGenBody(), CallEnv(Generator(c, env), APair(head, tail)), n) == Val(APair(w, rest))
  {
    hide Eval, MapGenBody, Generator, CallEnv;
    n := m + d + 5;
    MoreCalls(c.body, CallEnv(c, head), d, n - 3);
    MoreCalls(MapGenBody(), CallEnv(Generator(c, env), tail), m, n - 3);
    GeneratorStep(c, env, head, tail, n);
  }

  /** mupl-map applied to a function and a list gives the list of the function's results. */
  lemma {:induction false} MuplMapMeaning(f: Exp, l: Exp, env: Env, c: Exp, vs: seq<Exp>, ws: seq<Exp>)
    requires Outcome(f, env, Val(c)) && c.Closure? && Outcome(l, env, Val(ListOf(vs)))
    requires |vs| == |ws| && forall i :: 0 <= i < |vs| ==> Applies(c, vs[i], ws[i])
    ensures Outcome(Call(Call(MuplMap(), f), l), env, Val(ListOf(ws)))
  {
    var d1: nat :| Eval(f, env, d1) == Val(c);
    var d2: nat :| Eval(l, env, d2) == Val(ListOf(vs));
    var d3 := GeneratorMaps(c, env, vs, ws);
    hide Eval, MuplMap, Generator, MapGenBody, CallEnv, ListOf;
    MuplMapRuns(f, l, env, c, ListOf(vs), Val(ListOf(ws)), d1, d2, d3);
  }

  /** Applying closure c to v ends in an error. */
  ghost predicate Fails(c: Exp, v: Exp) {
    c.Closure? && Outcome(c.body, CallEnv(c, v), Error)
  }

  lemma {:induction false} GeneratorFails(c: Exp, env: Env, vs: seq<Exp>, ws: seq<Exp>) returns (n: nat)
    requires c.Closure? && |ws| < |vs| && (forall i :: 0 <= i < |ws| ==> Applies(c, vs[i], ws[i])) && Fails(c, vs[|ws|])
    ensures Eval(MapGenBody(), CallEnv(Generator(c, env), ListOf(vs)), n) == Error
    decreases |vs|
  {
    var head, tail := vs[0], ListOf(vs[1..]);
    if ws == [] {
      var d: nat :| Eval(c.body, CallEnv(c, head), d) == Error;
      n := d + 5;
      MoreCalls(c.body, CallEnv(c, head), d, n - 3);
    } else {
      var m := GeneratorFails(c, env, vs[1..], ws[1..]);
      assert Applies(c, head, ws[0]);
      var d: nat :| Eval(c.body, CallEnv(c, head), d) == Val(ws[0]);
      n := m + d + 5;
      MoreCalls(c.body, CallEnv(c, head), d, n - 3);
      MoreCalls(MapGenBody(), CallEnv(Generator(c, env), tail), m, n - 3);
    }
    hide Eval, MapGenBody, Generator, CallEnv;
    GeneratorStep(c, env, head, tail, n);
  }

  /** The first element on which the function fails makes the whole mupl-map fail, whatever follows it. */
  lemma {:induction false} MuplMapError(f: Exp, l: Exp, env: Env, c: Exp, vs: seq<Exp>, ws: seq<Exp>)
    requires Outcome(f, env, Val(c)) && c.Closure? && Outcome(l, env, Val(ListOf(vs)))
    requires |ws| < |vs| && (forall i :: 0 <= i < |ws| ==> Applies(c, vs[i], ws[i])) && Fails(c, vs[|ws|])
    ensures Outcome(Call(Call(MuplMap(), f), l), env, Error)
  {
    var d1: nat :| Eval(f, env, d1) == Val(c);
    var d2: nat :| Eval(l, env, d2) == Val(ListOf(vs));
    var d3 := GeneratorFails(c, env, vs, ws);
    hide Eval, MuplMap, Generator, MapGenBody, CallEnv, ListOf;
    MuplMapRuns(f, l, env, c, ListOf(vs), Error, d1, d2, d3);
  }

  lemma {:induction false} MuplMapRuns(f: Exp, l: Exp, env: Env, c: Exp, list: Exp, r: Result, d1: nat, d2: nat, d3: nat)
    requires Eval(f, env, d1) == Val(c) && c.Closure? && Eval(l, env, d2) == Val(list)
    requires Eval(MapGenBody(), CallEnv(Generator(c, env), list), d3) == r != CutOff
    ensures Outcome(Call(Call(MuplMap(), f), l), env, r)
  {
    var n := d1 + d2 + d3 + 5;
    var g := Generator(c, env);
    assert g.Closure? && g.body == MapGenBody();
    hide Eval, MuplMap, Generator, MapGenBody, CallEnv;
    MoreCalls(f, env, d1, n - 2);
    MoreCalls(l, env, d2, n - 1);
    MoreCalls(MapGenBody(), CallEnv(g, list), d3, n - 1);
    MapCall(f, env, c, n - 1);
    CallAt(Call(MuplMap(), f), l, env, g, list, n);
  }

  lemma {:induction false} MapCall(f: Exp, env: Env, c: Exp, n: nat)
    requires n >= 2 && Eval(f, env, n - 1) == Val(c)
    ensures Eval(Call(MuplMap(), f), env, n) == Val(Generator(c, env))
  {
    var m := Closure(env, Some("mupl-map"), "fn", Fun(Some("mupl-map-gen"), "lst", MapGenBody()));
    hide MapGenBody;
    assert Eval(MuplMap(), env, n - 1) == Val(m);
    assert Eval(m.body, CallEnv(m, c), n - 1) == Val(Generator(c, env));
    CallAt(MuplMap(), f, env, m, c, n);
  }
}
