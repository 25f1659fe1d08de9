/** When a program of the database machine ends (db/src/libchidb/dbm.c:193-214): its instructions make
    no new values, so it has a bounded number of states. */
module Halting {
  import opened Dbm

  /** The registers a program writes or finds in use. */
  ghost function Used(prog: seq<Op>, s: State): set<nat> {
    s.regs.Keys + set i | 0 <= i < |prog| && Stores(prog[i].opcode) && prog[i].p2 >= 0 :: prog[i].p2
  }

  /** What an instruction puts into its register. */
  function Stored(op: Op): Register {
    match op.opcode
    case Integer => Int32(op.p1)
    case String => Str(op.p4)
    case _ => NullValue
  }

  /** The values that registers can have. */
  ghost function Values(prog: seq<Op>, s: State): set<Register> {
    s.regs.Values + set i | 0 <= i < |prog| && Stores(prog[i].opcode) :: Stored(prog[i])
  }

  function Power(b: nat, n: nat): (p: nat)
    ensures b >= 1 ==> p >= 1
  {
    if n == 0 then 1 else b * Power(b, n - 1)
  }

  ghost function Setting(ms: set<Registers>, k: nat, v: Register): set<Registers> {
    set m | m in ms :: m[k := v]
  }

  ghost function SettingAny(ms: set<Registers>, k: nat, vals: set<Register>): set<Registers> {
    set m, v | m in ms && v in vals :: m[k := v]
  }

  /** The ways to give some of the registers keys values of vals. */
  ghost function Maps(keys: set<nat>, vals: set<Register>): set<Registers>
    decreases |keys|
  {
    if keys == {} then {map[]}
    else
      var k :| k in keys;
      Maps(keys - {k}, vals) + SettingAny(Maps(keys - {k}, vals), k, vals)
  }

  lemma MapsMore(keys: set<nat>, vals: set<Register>) returns (k: nat)
    requires keys != {}
    ensures k in keys
    ensures Maps(keys, vals) == Maps(keys - {k}, vals) + SettingAny(Maps(keys - {k}, vals), k, vals)
  {
    hide SettingAny;
    k :| k in keys && Maps(keys, vals) == Maps(keys - {k}, vals) + SettingAny(Maps(keys - {k}, vals), k, vals);
  }

  lemma {:induction false} InMaps(keys: set<nat>, vals: set<Register>, m: Registers)
    requires m.Keys <= keys && m.Values <= vals
    ensures m in Maps(keys, vals)
    decreases |keys|
  {
    if keys == {} {
      assert m == map[];
    } else {
      hide Maps;
      var k := MapsMore(keys, vals);
      if k in m {
        var rest := m - {k};
        InMaps(keys - {k}, vals, rest);
        assert m == rest[k := m[k]] && m[k] in vals;
      } else {
        InMaps(keys - {k}, vals, m);
      }
    }
  }

  lemma SizeAtMost<T>(a: set<T>, b: set<T>)
    requires a <= b
    ensures |a| <= |b|
  {
    assert b == a + (b - a);
  }

  /** Setting one register in each of some maps gives at most as many. */
  lemma {:induction false} CountSetting(ms: set<Registers>, k: nat, v: Register)
    ensures |Setting(ms, k, v)| <= |ms|
    decreases |ms|
  {
    if ms == {} {
      assert Setting(ms, k, v) == {};
    } else {
      var m :| m in ms;
      CountSetting(ms - {m}, k, v);
      forall x | x in Setting(ms, k, v)
        ensures x in Setting(ms - {m}, k, v) + {m[k := v]}
      {
        var y :| y in ms && x == y[k := v];
        assert y != m ==> y in ms - {m};
      }
      SizeAtMost(Setting(ms, k, v), Setting(ms - {m}, k, v) + {m[k := v]});
    }
  }

  lemma {:induction false} CountSettingAny(ms: set<Registers>, k: nat, vals: set<Register>)
    ensures |SettingAny(ms, k, vals)| <= |ms| * |vals|
    decreases |vals|
  {
    if vals == {} {
      assert SettingAny(ms, k, vals) == {};
    } else {
      var v :| v in vals;
      CountSettingAny(ms, k, vals - {v});
      CountSetting(ms, k, v);
      forall x | x in SettingAny(ms, k, vals)
        ensures x in SettingAny(ms, k, vals - {v}) + Setting(ms, k, v)
      {
        var m, w :| m in ms && w in vals && x == m[k := w];
        assert w != v ==> w in vals - {v};
      }
      SizeAtMost(SettingAny(ms, k, vals), SettingAny(ms, k, vals - {v}) + Setting(ms, k, v));
      assert |ms| * |vals| == |ms| * |vals - {v}| + |ms|;
    }
  }

  lemma {:induction false} CountMaps(keys: set<nat>, vals: set<Register>)
    ensures |Maps(keys, vals)| <= Power(|vals| + 1, |keys|)
    decreases |keys|
  {
    if keys != {} {
      hide Maps, SettingAny;
      var k := MapsMore(keys, vals);
      var n := |Maps(keys - {k}, vals)|;
      CountMaps(keys - {k}, vals);
      CountSettingAny(Maps(keys - {k}, vals), k, vals);
      assert n + n * |vals| == (|vals| + 1) * n;
      TimesAtMost(n, Power(|vals| + 1, |keys| - 1), |vals| + 1);
    }
  }

  lemma TimesAtMost(a: nat, b: nat, x: nat)
    requires a <= b
    ensures x * a <= x * b
  {
  }

  ghost function At(pc: nat, ms: set<Registers>): set<State> {
    set m | m in ms :: State(pc, m, OK)
  }

  /** The states in which a program of n instructions goes on. */
  ghost function Running(n: nat, ms: set<Registers>): set<State> {
    if n == 0 then {} else Running(n - 1, ms) + At(n - 1, ms)
  }

  lemma {:induction false} InRunning(n: nat, ms: set<Registers>, s: State)
    requires s.pc < n && s.regs in ms && s.rc == OK
    ensures s in Running(n, ms)
  {
    if s.pc == n - 1 {
      assert s == State(n - 1, s.regs, OK);
    } else {
      InRunning(n - 1, ms, s);
    }
  }

  lemma {:induction false} CountAt(pc: nat, ms: set<Registers>)
    ensures |At(pc, ms)| <= |ms|
    decreases |ms|
  {
    if ms == {} {
      assert At(pc, ms) == {};
    } else {
      var m :| m in ms;
      CountAt(pc, ms - {m});
      forall x | x in At(pc, ms)
        ensures x in At(pc, ms - {m}) + {State(pc, m, OK)}
      {
        assert x.regs != m ==> x.regs in ms - {m};
      }
      SizeAtMost(At(pc, ms), At(pc, ms - {m}) + {State(pc, m, OK)});
    }
  }

  lemma {:induction false} CountRunning(n: nat, ms: set<Registers>)
    ensures |Running(n, ms)| <= n * |ms|
  {
    if n > 0 {
      CountRunning(n - 1, ms);
      CountAt(n - 1, ms);
      assert n * |ms| == (n - 1) * |ms| + |ms|;
    }
  }

  /** Every state a run goes on in is one of them. */
  ghost predicate Within(prog: seq<Op>, first: State, s: State) {
    s.regs.Keys <= Used(prog, first) && s.regs.Values <= Values(prog, first)
  }

  lemma StepWithin(prog: seq<Op>, first: State, s: State)
    requires Sane(prog) && Within(prog, first, s) && !Finished(prog, s)
    ensures Within(prog, first, Step(prog, s))
  {
    var op, t := prog[s.pc], Step(prog, s);
    if Stores(op.opcode) {
      assert t.regs == s.regs[op.p2 := Stored(op)];
      assert t.regs.Values <= s.regs.Values + {Stored(op)};
    }
  }

  lemma {:induction false} StepsWithin(prog: seq<Op>, first: State, s: State, n: nat)
    requires Sane(prog) && Within(prog, first, s)
    ensures Within(prog, first, Steps(prog, s, n))
    decreases n
  {
    hide Within, Step;
    if n > 0 && !Finished(prog, s) {
      StepWithin(prog, first, s);
      StepsWithin(prog, first, Step(prog, s), n - 1);
    }
  }

  lemma {:induction false} StepsAdd(prog: seq<Op>, s: State, a: nat, b: nat)
    requires Sane(prog)
    ensures Steps(prog, s, a + b) == Steps(prog, Steps(prog, s, a), b)
    decreases a
  {
    hide Step;
    if a > 0 && !Finished(prog, s) {
      StepsAdd(prog, Step(prog, s), a - 1, b);
    }
  }

  /** A run that has ended stays where it is. */
  lemma StillFinished(prog: seq<Op>, s: State, a: nat, b: nat)
    requires Sane(prog) && a <= b && Finished(prog, Steps(prog, s, a))
    ensures Finished(prog, Steps(prog, s, b))
  {
    StepsAdd(prog, s, a, b - a);
  }

  /** A run that comes to the same state twice goes on for ever. */
  lemma {:induction false} Loops(prog: seq<Op>, s: State, i: nat, j: nat, n: nat)
    requires Sane(prog) && i < j && Steps(prog, s, i) == Steps(prog, s, j) && !Finished(prog, Steps(prog, s, j))
    ensures !Finished(prog, Steps(prog, s, n))
    decreases n
  {
    hide Finished, Steps;
    if n <= j {
      if Finished(prog, Steps(prog, s, n)) {
        StillFinished(prog, s, n, j);
      }
    } else {
      StepsAdd(prog, s, j, n - j);
      StepsAdd(prog, s, i, n - j);
      Loops(prog, s, i, j, n - (j - i));
    }
  }

  /** The states before step n, in order. */
  ghost function Trace(prog: seq<Op>, s: State, n: nat): (t: seq<State>)
    requires Sane(prog)
    ensures |t| == n && forall i :: 0 <= i < n ==> t[i] == Steps(prog, s, i)
  {
    seq(n, i requires 0 <= i < n => Steps(prog, s, i))
  }

  /** Among more members of a set than it has two are the same. */
  lemma {:induction false} Repeated(t: seq<State>, u: set<State>)
    requires (forall i :: 0 <= i < |t| ==> t[i] in u) && |t| > |u|
    ensures exists i, j :: 0 <= i < j < |t| && t[i] == t[j]
    decreases |t|
  {
    var last := t[|t| - 1];
    if k :| 0 <= k < |t| - 1 && t[k] == last {
      assert t[k] == t[|t| - 1];
    } else {
      var front := t[..|t| - 1];
      Repeated(front, u - {last});
      var i, j :| 0 <= i < j < |front| && front[i] == front[j];
      assert t[i] == t[j];
    }
  }

  /** As many steps as there can be states: instructions times ways to fill the registers. */
  ghost function Bound(prog: seq<Op>, s: State): nat {
    |prog| * Power(|Values(prog, s)| + 1, |Used(prog, s)|)
  }

  lemma CountStates(prog: seq<Op>, s: State)
    ensures |Running(|prog|, Maps(Used(prog, s), Values(prog, s)))| <= Bound(prog, s)
  {
    hide Maps, Running, Power, Used, Values;
    var ms := Maps(Used(prog, s), Values(prog, s));
    CountRunning(|prog|, ms);
    CountMaps(Used(prog, s), Values(prog, s));
    TimesAtMost(|ms|, Power(|Values(prog, s)| + 1, |Used(prog, s)|), |prog|);
  }

  /** A program that has not ended after that many steps has been in one state twice. */
  lemma RepeatsWithin(prog: seq<Op>, s: State) returns (i: nat, j: nat)
    requires Sane(prog) && !Finished(prog, Steps(prog, s, Bound(prog, s)))
    ensures i < j <= Bound(prog, s) && Steps(prog, s, i) == Steps(prog, s, j)
  {
    hide Steps, Bound, Maps, Running, Within;
    var n, u := Bound(prog, s), Running(|prog|, Maps(Used(prog, s), Values(prog, s)));
    var t := Trace(prog, s, n + 1);
    CountStates(prog, s);
    forall k | 0 <= k <= n
      ensures Steps(prog, s, k) in u
    {
      GoesOnWithin(prog, s, k, n);
    }
    Repeated(t, u);
    i, j :| 0 <= i < j < |t| && t[i] == t[j];
  }

  lemma GoesOnWithin(prog: seq<Op>, s: State, k: nat, n: nat)
    requires Sane(prog) && k <= n && !Finished(prog, Steps(prog, s, n))
    ensures Steps(prog, s, k) in Running(|prog|, Maps(Used(prog, s), Values(prog, s)))
  {
    hide Steps, Maps;
    if Finished(prog, Steps(prog, s, k)) {
      StillFinished(prog, s, k, n);
    }
    StepsWithin(prog, s, s, k);
    InMaps(Used(prog, s), Values(prog, s), Steps(prog, s, k).regs);
    InRunning(|prog|, Maps(Used(prog, s), Values(prog, s)), Steps(prog, s, k));
  }

  /** A program ends if and only if it ends within that many steps; otherwise it runs for ever. */
  lemma EndsIff(prog: seq<Op>, s: State)
    requires Sane(prog)
    ensures (exists n: nat :: Finished(prog, Steps(prog, s, n))) <==> Finished(prog, Steps(prog, s, Bound(prog, s)))
  {
    hide Steps, Bound, Finished;
    if !Finished(prog, Steps(prog, s, Bound(prog, s))) {
      var i, j := RepeatsWithin(prog, s);
      if Finished(prog, Steps(prog, s, j)) {
        StillFinished(prog, s, j, Bound(prog, s));
      }
      forall n: nat
        ensures !Finished(prog, Steps(prog, s, n))
      {
        Loops(prog, s, i, j, n);
      }
    }
  }
}
