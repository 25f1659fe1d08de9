/** The database machine: a small-step interpreter over values, and the statement object with its
    growing instruction and register arrays (db/src/libchidb/dbm.c, dbm-ops.c). */
module Dbm {
  import opened Bytes

  const OK := 0
  const DONE := 101
  const OPS_SIZE := 50
  const REG_SIZE := 10
  const MAX_OPS := 0xFFFF_FFFF  // the program counter has 32 bits

  datatype Opcode = Noop | Integer | String | Null | Eq | Ne | Lt | Le | Gt | Ge | Halt

  datatype Op = Op(opcode: Opcode, p1: i32, p2: i32, p3: i32, p4: string)

  const NOOP: Op := Op(Noop, 0, 0, 0, "")

  datatype Register = Unspecified | NullValue | Int32(i: i32) | Str(s: string)

  /** strcmp */
  function StrCmp(a: string, b: string): int {
    if a == [] then if b == [] then 0 else -1
    else if b == [] then 1
    else if a[0] < b[0] then -1
    else if a[0] > b[0] then 1
    else StrCmp(a[1..], b[1..])
  }

  /** How two registers of one type compare; nothing else compares. */
  predicate Comparable(a: Register, b: Register) {
    (a.Int32? && b.Int32?) || (a.Str? && b.Str?)
  }

  function Compare(a: Register, b: Register): int
    requires Comparable(a, b)
  {
    if a.Int32? then a.i - b.i else StrCmp(a.s, b.s)
  }

  /** The second register against the first. */
  predicate Jumps(opcode: Opcode, r1: Register, r2: Register) {
    Comparable(r1, r2) &&
    match opcode
    case Eq => Compare(r2, r1) == 0
    case Ne => Compare(r2, r1) != 0
    case Lt => Compare(r2, r1) < 0
    case Le => Compare(r2, r1) <= 0
    case Gt => Compare(r2, r1) > 0
    case Ge => Compare(r2, r1) >= 0
    case _ => false
  }

  lemma {:induction false} StrCmpLaws(a: string, b: string)
    ensures StrCmp(a, b) == 0 <==> a == b
    ensures StrCmp(a, b) < 0 <==> StrCmp(b, a) > 0
  {
    if a != [] && b != [] && a[0] == b[0] {
      StrCmpLaws(a[1..], b[1..]);
      assert a == [a[0]] + a[1..] && b == [b[0]] + b[1..];
    }
  }

  lemma {:induction false} StrCmpTransitive(a: string, b: string, c: string)
    requires StrCmp(a, b) <= 0 && StrCmp(b, c) <= 0
    ensures StrCmp(a, c) <= 0
  {
    if a != [] && b != [] && c != [] && a[0] == b[0] == c[0] {
      StrCmpTransitive(a[1..], b[1..], c[1..]);
    }
  }

  /** On two integers or two strings the six conditions are those of one total order. */
  lemma JumpsAreAnOrder(a: Register, b: Register, c: Register)
    requires Comparable(a, b) && Comparable(b, c)
    ensures Jumps(Eq, a, b) <==> a == b
    ensures Jumps(Ne, a, b) <==> a != b
    ensures Jumps(Lt, a, b) <==> Jumps(Gt, b, a)
    ensures Jumps(Le, a, b) <==> Jumps(Lt, a, b) || a == b
    ensures Jumps(Ge, a, b) <==> Jumps(Gt, a, b) || a == b
    ensures Jumps(Lt, a, b) || Jumps(Gt, a, b) || a == b
    ensures !(Jumps(Lt, a, b) && Jumps(Gt, a, b))
    ensures Jumps(Le, a, b) && Jumps(Le, b, c) ==> Jumps(Le, a, c)
  {
    if a.Str? {
      StrCmpLaws(a.s, b.s);
      StrCmpLaws(b.s, a.s);
      if StrCmp(b.s, a.s) <= 0 && StrCmp(c.s, b.s) <= 0 {
        StrCmpTransitive(c.s, b.s, a.s);
      }
    }
  }

  /** a comes before b: it is a proper beginning of b, or has the smaller character where they first
      differ. */
  ghost predicate Before(a: string, b: string) {
    exists n: nat :: DifferAt(a, b, n)
  }

  predicate DifferAt(a: string, b: string, n: nat) {
    && n <= |a| && n < |b| && a[..n] == b[..n]
    && (n < |a| ==> a[n] < b[n])
  }

  lemma SameFirst(a: string, b: string, n: nat)
    requires 0 < n <= |a| && n <= |b| && a[..n] == b[..n]
    ensures a[0] == b[0]
  {
    assert a[..n][0] == a[0];
  }

  lemma {:induction false} StrCmpBefore(a: string, b: string)
    ensures StrCmp(a, b) < 0 <==> Before(a, b)
  {
    if a != [] && b != [] && a[0] == b[0] {
      StrCmpBefore(a[1..], b[1..]);
      if Before(a[1..], b[1..]) {
        var n: nat :| DifferAt(a[1..], b[1..], n);
        assert a[..n + 1] == [a[0]] + a[1..][..n] && b[..n + 1] == [b[0]] + b[1..][..n];
        assert DifferAt(a, b, n + 1);
      }
      if Before(a, b) {
        var n: nat :| DifferAt(a, b, n);
        assert n > 0;
        assert a[1..][..n - 1] == a[..n][1..] && b[1..][..n - 1] == b[..n][1..];
        assert DifferAt(a[1..], b[1..], n - 1);
      }
    } else {
      BeforeAtOnce(a, b);
    }
  }

  lemma BeforeAtOnce(a: string, b: string)
    requires a == [] || b == [] || a[0] != b[0]
    ensures Before(a, b) <==> b != [] && (a == [] || a[0] < b[0])
  {
    if Before(a, b) {
      var n: nat :| DifferAt(a, b, n);
      if n > 0 {
        SameFirst(a, b, n);
      }
    }
    if b != [] && (a == [] || a[0] < b[0]) {
      assert DifferAt(a, b, 0);
    }
  }

  /** Which jumps two integers take: the second register is compared with the first. */
  lemma IntegersJump(x: i32, y: i32)
    ensures Jumps(Eq, Int32(x), Int32(y)) <==> y == x
    ensures Jumps(Ne, Int32(x), Int32(y)) <==> y != x
    ensures Jumps(Lt, Int32(x), Int32(y)) <==> y < x
    ensures Jumps(Le, Int32(x), Int32(y)) <==> y <= x
    ensures Jumps(Gt, Int32(x), Int32(y)) <==> y > x
    ensures Jumps(Ge, Int32(x), Int32(y)) <==> y >= x
  {
  }

  /** And two strings. */
  lemma StringsJump(a: string, b: string)
    ensures Jumps(Eq, Str(a), Str(b)) <==> b == a
    ensures Jumps(Ne, Str(a), Str(b)) <==> b != a
    ensures Jumps(Lt, Str(a), Str(b)) <==> Before(b, a)
    ensures Jumps(Le, Str(a), Str(b)) <==> Before(b, a) || b == a
    ensures Jumps(Gt, Str(a), Str(b)) <==> Before(a, b)
    ensures Jumps(Ge, Str(a), Str(b)) <==> Before(a, b) || b == a
  {
    hide Before;
    StrCmpLaws(a, b);
    StrCmpLaws(b, a);
    StrCmpBefore(b, a);
    StrCmpBefore(a, b);
  }

  /** Anything else takes none. */
  lemma OthersDoNotJump(opcode: Opcode, a: Register, b: Register)
    requires !(a.Int32? && b.Int32?) && !(a.Str? && b.Str?)
    ensures !Jumps(opcode, a, b)
  {
  }

  type Registers = map<nat, Register>

  /** rc is what the last instruction returned. */
  datatype State = State(pc: nat, regs: Registers, rc: int)

  predicate IsJump(opcode: Opcode) {
    opcode in {Eq, Ne, Lt, Le, Gt, Ge}
  }

  predicate Stores(opcode: Opcode) {
    opcode in {Integer, String, Null}
  }

  function Read(regs: Registers, r: int): Register {
    if r in regs then regs[r] else Unspecified
  }

  /** An address becomes an unsigned program counter. */
  function Address(p: i32): nat {
    if p < 0 then p + 0x1_0000_0000 else p
  }

  /** One instruction of a program of size endOp, with the program counter already behind it. */
  function Do(op: Op, endOp: nat, s: State): State
    requires Stores(op.opcode) ==> op.p2 >= 0
  {
    match op.opcode
    case Noop => s.(rc := OK)
    case Integer => s.(regs := s.regs[op.p2 := Int32(op.p1)], rc := OK)
    case String => s.(regs := s.regs[op.p2 := Str(op.p4)], rc := OK)
    case Null => s.(regs := s.regs[op.p2 := NullValue], rc := OK)
    case Halt => s.(pc := endOp + 1, rc := op.p1)
    case _ =>
      if Jumps(op.opcode, Read(s.regs, op.p1), Read(s.regs, op.p3)) then s.(pc := Address(op.p2), rc := OK)
      else s.(rc := OK)
  }

  /** Destination registers are not negative. */
  predicate Sane(prog: seq<Op>) {
    forall i :: 0 <= i < |prog| ==> (Stores(prog[i].opcode) ==> prog[i].p2 >= 0)
  }

  predicate Finished(prog: seq<Op>, s: State) {
    s.rc != OK || s.pc >= |prog|
  }

  function Step(prog: seq<Op>, s: State): State
    requires Sane(prog) && !Finished(prog, s)
  {
    Do(prog[s.pc], |prog|, s.(pc := s.pc + 1))
  }

  function Steps(prog: seq<Op>, s: State, n: nat): State
    requires Sane(prog)
    decreases n
  {
    if n == 0 || Finished(prog, s) then s else Steps(prog, Step(prog, s), n - 1)
  }

  /** What exec returns. */
  function Result(s: State): int {
    if s.rc == OK || s.rc == DONE then DONE else s.rc
  }

  /** Every jump goes behind its own instruction. */
  predicate Forward(prog: seq<Op>) {
    forall i :: 0 <= i < |prog| ==> (IsJump(prog[i].opcode) ==> Address(prog[i].p2) > i)
  }

  /** If every jump goes forward the program ends after at most as many steps as are left. */
  lemma {:induction false} ForwardEnds(prog: seq<Op>, s: State, n: nat)
    requires Sane(prog) && Forward(prog) && s.pc + n >= |prog|
    ensures Finished(prog, Steps(prog, s, n))
    decreases n
  {
    if n > 0 && !Finished(prog, s) {
      ForwardEnds(prog, Step(prog, s), n - 1);
    }
  }

  /** A comparison that jumps goes to its second operand, taken as a number without a sign; one that
      does not goes on with the next instruction.  Neither touches a register. */
  lemma JumpGoes(prog: seq<Op>, s: State)
    requires Sane(prog) && !Finished(prog, s) && prog[s.pc].opcode in {Eq, Ne, Lt, Le, Gt, Ge}
    ensures var op, t := prog[s.pc], Step(prog, s);
            && t.regs == s.regs && t.rc == 0
            && t.pc == if !Jumps(op.opcode, Read(s.regs, op.p1), Read(s.regs, op.p3)) then s.pc + 1
                       else if op.p2 >= 0 then op.p2 else op.p2 + 0x1_0000_0000
  {
  }

  /** What exec returns at the end: 101, which is "done", or the first operand of the Halt that was
      reached. */
  lemma {:induction false} EndsWith(prog: seq<Op>, s: State, n: nat)
    requires Sane(prog) && s.rc == OK
    ensures var e := Steps(prog, s, n);
            && (e.rc != OK ==> exists i :: 0 <= i < |prog| && prog[i].opcode == Halt && prog[i].p1 == e.rc)
            && Result(e) == if e.rc == 0 then 101 else e.rc
    decreases n
  {
    if n > 0 && !Finished(prog, s) {
      var t := Step(prog, s);
      if t.rc == OK {
        EndsWith(prog, t, n - 1);
      } else {
        assert prog[s.pc].opcode == Halt && prog[s.pc].p1 == t.rc;
      }
    }
  }

  /** A backward jump can keep it going for ever. */
  lemma {:induction false} BackwardRunsOn(n: nat)
    ensures var prog := [Op(Integer, 7, 0, 0, ""), Op(Eq, 0, 0, 0, "")];
            Sane(prog) && !Finished(prog, Steps(prog, State(0, map[], OK), n))
  {
    var prog := [Op(Integer, 7, 0, 0, ""), Op(Eq, 0, 0, 0, "")];
    assert !Finished(prog, State(0, map[], OK));
    if n > 0 {
      assert Step(prog, State(0, map[], OK)) == State(1, map[0 := Int32(7)], OK);
      Circles(n - 1);
    }
  }

  lemma {:induction false} Circles(n: nat)
    ensures var prog := [Op(Integer, 7, 0, 0, ""), Op(Eq, 0, 0, 0, "")];
            Sane(prog) && !Finished(prog, Steps(prog, State(1, map[0 := Int32(7)], OK), n))
    ensures var prog := [Op(Integer, 7, 0, 0, ""), Op(Eq, 0, 0, 0, "")];
            Sane(prog) && !Finished(prog, Steps(prog, State(0, map[0 := Int32(7)], OK), n))
  {
    var prog := [Op(Integer, 7, 0, 0, ""), Op(Eq, 0, 0, 0, "")];
    var one, zero := State(1, map[0 := Int32(7)], OK), State(0, map[0 := Int32(7)], OK);
    if n > 0 {
      Circles(n - 1);
      assert Step(prog, one) == zero;
      assert map[0 := Int32(7)][0 := Int32(7)] == map[0 := Int32(7)];
      assert Step(prog, zero) == one;
    }
  }

  /** The registers of an array that have a value. */
  function Registered(reg: seq<Register>): (m: Registers)
    ensures forall r: nat :: r in m <==> r < |reg| && reg[r] != Unspecified
    ensures forall r :: r in m ==> m[r] == reg[r]
  {
    map r: nat | r < |reg| && reg[r] != Unspecified :: reg[r]
  }

  /** The program after instruction pos is set: the gap before it is filled with Noops. */
  function WithOp(prog: seq<Op>, pos: nat, op: Op): (p: seq<Op>)
    ensures |p| == (if pos < |prog| then |prog| else pos + 1) && p[pos] == op
    ensures forall i :: 0 <= i < |p| && i != pos ==> p[i] == if i < |prog| then prog[i] else NOOP
  {
    if pos < |prog| then prog[pos := op] else prog + seq(pos - |prog|, _ => NOOP) + [op]
  }

  class Stmt {
    var pc: nat
    var ops: array<Op>
    var endOp: nat
    var reg: array<Register>

    ghost predicate Valid()
      reads this, ops, reg
    {
      endOp <= ops.Length < MAX_OPS && forall i :: endOp <= i < ops.Length ==> ops[i] == NOOP
    }

    ghost function Program(): seq<Op>
      requires endOp <= ops.Length
      reads this, ops
    {
      ops[..endOp]
    }

    ghost function Regs(): Registers
      reads this, reg
    {
      Registered(reg[..])
    }

    /** chidb_stmt_init */
    constructor ()
      ensures Valid() && pc == 0 && Program() == [] && Regs() == map[]
      ensures fresh(ops) && fresh(reg) && ops.Length == 50 && reg.Length == 10
    {
      pc, endOp := 0, 0;
      ops := new Op[OPS_SIZE](_ => NOOP);
      reg := new Register[REG_SIZE](_ => Unspecified);
    }

    /** realloc_ops, only ever called with more than there are */
    method ReallocOps(size: nat)
      requires Valid() && ops.Length <= size < MAX_OPS
      modifies this`ops
      ensures Valid() && fresh(ops) && ops.Length == size && Program() == old(Program())
    {
      var more := new Op[size](i requires 0 <= i reads this, ops => if i < ops.Length then ops[i] else NOOP);
      ops := more;
    }

    /** chidb_stmt_set_op */
    method SetOp(op: Op, pos: nat)
      requires Valid() && pos + 1 < MAX_OPS
      modifies this`ops, this`endOp, ops
      ensures Valid() && (ops == old(ops) || fresh(ops)) && Program() == WithOp(old(Program()), pos, op)
    {
      if pos >= ops.Length {
        ReallocOps(pos + 1);
      }
      ops[pos] := op;
      if pos >= endOp {
        endOp := pos + 1;
      }
    }

    /** realloc_reg, only ever called with more than there are */
    method ReallocReg(size: nat)
      requires reg.Length <= size
      modifies this`reg
      ensures fresh(reg) && reg.Length == size && Regs() == old(Regs())
    {
      var more := new Register[size](i requires 0 <= i reads this, reg =>
        if i < reg.Length then reg[i] else Unspecified);
      reg := more;
    }

    /** The tail of Integer, String and Null: the array grows to the register if need be. */
    method Put(dest: nat, value: Register)
      requires value != Unspecified
      modifies this`reg, reg
      ensures Regs() == old(Regs())[dest := value] && (reg == old(reg) || fresh(reg))
    {
      if dest >= reg.Length {
        ReallocReg(dest + 1);
      }
      ghost var before := reg[..];
      reg[dest] := value;
      assert reg[..] == before[dest := value];
    }

    /** The comparisons: a register that does not exist or has no value compares with nothing. */
    method JumpIf(op: Op)
      requires IsJump(op.opcode)
      modifies this`pc
      ensures pc == if Jumps(op.opcode, Read(Regs(), op.p1), Read(Regs(), op.p3)) then Address(op.p2) else old(pc)
    {
      if !(0 <= op.p1 < reg.Length && reg[op.p1] != Unspecified) || !(0 <= op.p3 < reg.Length
          && reg[op.p3] != Unspecified) {
        return;
      }
      if Jumps(op.opcode, reg[op.p1], reg[op.p3]) {
        pc := Address(op.p2);
      }
    }

    /** chidb_dbm_op_handle */
    method Handle(op: Op) returns (rc: int)
      requires Valid() && (Stores(op.opcode) ==> op.p2 >= 0)
      modifies this`pc, this`reg, reg
      ensures Valid() && (reg == old(reg) || fresh(reg))
      ensures State(pc, Regs(), rc) == Do(op, endOp, old(State(pc, Regs(), OK)))
    {
      rc := OK;
      match op.opcode {
        case Noop =>
        case Integer => Put(op.p2, Int32(op.p1));
        case String => Put(op.p2, Str(op.p4));
        case Null => Put(op.p2, NullValue);
        case Halt =>
          pc := endOp + 1;
          if op.p1 != 0 {
            rc := op.p1;
          }
        case _ => JumpIf(op);
      }
    }

    /** chidb_stmt_exec, at most limit instructions of it: the statement goes through the states of
        the small-step interpreter. */
    method Exec(limit: nat) returns (ended: bool, rc: int)
      requires Valid() && Sane(Program())
      modifies this`pc, this`reg, reg
      ensures Valid() && Program() == old(Program()) && (reg == old(reg) || fresh(reg))
      ensures var s := Steps(Program(), old(State(pc, Regs(), OK)), limit);
              && ended == Finished(Program(), s) && pc == s.pc && Regs() == s.regs
              && rc == if ended then Result(s) else OK
    {
      hide Do, Registered;
      rc := OK;
      ghost var prog, first := Program(), State(pc, Regs(), OK);
      var n := 0;
      while pc < endOp && rc == OK && n < limit
        invariant 0 <= n <= limit && Valid() && Program() == prog && (reg == old(reg) || fresh(reg))
        invariant Steps(prog, State(pc, Regs(), rc), limit - n) == Steps(prog, first, limit)
        decreases limit - n
      {
        var op := ops[pc];
        assert op == prog[pc];
        pc := pc + 1;
        rc := Handle(op);
        n := n + 1;
      }
      ended := pc >= endOp || rc != OK;
      if ended && rc == OK {
        rc := DONE;
      }
    }

    /** A program whose jumps all go forward runs to its end. */
    method Run() returns (rc: int)
      requires Valid() && Sane(Program()) && Forward(Program())
      modifies this`pc, this`reg, reg
      ensures Program() == old(Program())
      ensures var s := Steps(Program(), old(State(pc, Regs(), OK)), |Program()|);
              Finished(Program(), s) && pc == s.pc && Regs() == s.regs && rc == Result(s)
    {
      ForwardEnds(Program(), State(pc, Regs(), OK), |Program()|);
      var _, result := Exec(endOp);
      rc := result;
    }
  }
}
