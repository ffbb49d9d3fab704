/** What single instructions and short instruction sequences do, stated
    against the machine rather than against the code that computes it. */
module Properties {
  import opened Util
  import opened Display
  import opened Memory
  import opened Decoder
  import opened Cpu

  /** The machine after an instruction that completed. */
  function After(m: Machine, quirks: Quirks, keys: Keys, rnd: Byte, ins: Instr): (r: Machine)
    requires Valid(m) && WellFormed(ins) && !Faults(m, quirks, ins)
    ensures Valid(r)
  {
    Execute(m, quirks, keys, rnd, ins).value.m
  }

  // ---------------------------------------------------------------------
  // Control flow.

  /** One step adds 2 to PC after every instruction that does not take
      control of PC itself, and changes nothing the instruction did not. */
  lemma StepAdvances(m: Machine, quirks: Quirks, keys: Keys, rnd: Byte)
    requires Valid(m)
    requires var ins := Current(m);
      !(ins.Ret? || ins.Jump? || ins.Call? || ins.JumpOffset? || ins.WaitKey? || ins.Load?)
    ensures var r := Step(m, quirks, keys, rnd);
      && r.Ok?
      && r.value == After(m, quirks, keys, rnd, Current(m)).(pc := r.value.pc)
      && r.value.pc == After(m, quirks, keys, rnd, Current(m)).pc + 2
  {
  }

  /** 1nnn: PC becomes nnn, with no further advance. */
  lemma JumpSetsPc(m: Machine, quirks: Quirks, keys: Keys, rnd: Byte, nnn: nat)
    requires Valid(m) && Current(m) == Jump(nnn)
    ensures Step(m, quirks, keys, rnd) == Ok(m.(pc := nnn))
  {
  }

  /** A step executes the instruction spelled by the big-endian word
      `ram[pc] << 8 | ram[pc + 1]` and then moves PC on by 2 exactly when that
      instruction asks for it. */
  lemma StepFromExecute(m: Machine, quirks: Quirks, keys: Keys, rnd: Byte, e: Effect)
    requires Valid(m) && Execute(m, quirks, keys, rnd, Decode(Fetch(m.ram, m.pc))) == Ok(e)
    ensures Step(m, quirks, keys, rnd) == Ok(if e.advance then e.m.(pc := e.m.pc + 2) else e.m)
  {
    InstrAtFetch(m.ram, m.pc);
    StepOfEffect(m, quirks, keys, rnd, e);
  }

  lemma StepOfEffect(m: Machine, quirks: Quirks, keys: Keys, rnd: Byte, e: Effect)
    requires Valid(m) && Execute(m, quirks, keys, rnd, Current(m)) == Ok(e)
    ensures Step(m, quirks, keys, rnd) == Ok(if e.advance then e.m.(pc := e.m.pc + 2) else e.m)
  {
    StepIsAdvance(m, quirks, keys, rnd, e);
    AdvanceOk(e);
  }

  lemma StepIsAdvance(m: Machine, quirks: Quirks, keys: Keys, rnd: Byte, e: Effect)
    requires Valid(m) && Execute(m, quirks, keys, rnd, Current(m)) == Ok(e)
    ensures Step(m, quirks, keys, rnd) == Advance(Ok(e))
  {
  }

  lemma AdvanceOk(e: Effect)
    ensures Advance(Ok(e)) == Ok(if e.advance then e.m.(pc := e.m.pc + 2) else e.m)
  {
  }

  /** 2nnn at PC followed by 00EE at nnn: the machine is back where it was,
      one instruction further on. */
  lemma CallThenReturn(m: Machine, quirks: Quirks, keys: Keys, r1: Byte, r2: Byte, nnn: nat, x: Nibble)
    requires Valid(m) && Current(m) == Call(nnn)
    requires InstrAt(m.ram, nnn) == Ret(x)
    ensures Run(m, quirks, keys, [r1, r2]) == Ok(m.(pc := m.pc + 2))
  {
    var m1 := m.(stack := m.stack + [m.pc + 2], pc := nnn);
    StepCall(m, quirks, keys, r1, nnn);
    assert Current(m1) == Ret(x);
    StepReturn(m1, quirks, keys, r2, x);
    assert m1.stack[..|m1.stack| - 1] == m.stack;
    RunTwo(m, quirks, keys, r1, r2, m1, m.(pc := m.pc + 2));
  }

  /** Two steps that both complete. */
  lemma RunTwo(m: Machine, quirks: Quirks, keys: Keys, r1: Byte, r2: Byte, m1: Machine, m2: Machine)
    requires Valid(m) && Step(m, quirks, keys, r1) == Ok(m1)
    requires Valid(m1) && Step(m1, quirks, keys, r2) == Ok(m2)
    ensures Run(m, quirks, keys, [r1, r2]) == Ok(m2)
  {
    RunStep(m, quirks, keys, [r1, r2], m1);
    assert [r1, r2][1..] == [r2];
    RunStep(m1, quirks, keys, [r2], m2);
    assert [r2][1..] == [];
  }

  lemma RunStep(m: Machine, quirks: Quirks, keys: Keys, rnds: seq<Byte>, m1: Machine)
    requires Valid(m) && rnds != [] && Step(m, quirks, keys, rnds[0]) == Ok(m1)
    ensures Run(m, quirks, keys, rnds) == Run(m1, quirks, keys, rnds[1..])
  {
  }

  /** 2nnn: the return address pc + 2 is pushed and PC becomes nnn. */
  lemma StepCall(m: Machine, quirks: Quirks, keys: Keys, rnd: Byte, nnn: nat)
    requires Valid(m) && Current(m) == Call(nnn)
    ensures Step(m, quirks, keys, rnd) == Ok(m.(stack := m.stack + [m.pc + 2], pc := nnn))
  {
    ExecuteCall(m, quirks, keys, rnd, nnn);
    StepOfEffect(m, quirks, keys, rnd, Effect(m.(stack := m.stack + [m.pc + 2], pc := nnn), false));
  }

  lemma ExecuteCall(m: Machine, quirks: Quirks, keys: Keys, rnd: Byte, nnn: nat)
    requires Valid(m) && nnn < 4096
    ensures Execute(m, quirks, keys, rnd, Call(nnn)) ==
      Ok(Effect(m.(stack := m.stack + [m.pc + 2], pc := nnn), false))
  {
  }

  /** 00EE: PC becomes the popped top of the stack. */
  lemma StepReturn(m: Machine, quirks: Quirks, keys: Keys, rnd: Byte, x: Nibble)
    requires Valid(m) && Current(m) == Ret(x) && m.stack != []
    ensures Step(m, quirks, keys, rnd) ==
      Ok(m.(pc := m.stack[|m.stack| - 1], stack := m.stack[..|m.stack| - 1]))
  {
    ExecuteReturn(m, quirks, keys, rnd, x);
    StepOfEffect(m, quirks, keys, rnd,
      Effect(m.(pc := m.stack[|m.stack| - 1], stack := m.stack[..|m.stack| - 1]), false));
  }

  lemma ExecuteReturn(m: Machine, quirks: Quirks, keys: Keys, rnd: Byte, x: Nibble)
    requires Valid(m) && m.stack != []
    ensures Execute(m, quirks, keys, rnd, Ret(x)) ==
      Ok(Effect(m.(pc := m.stack[|m.stack| - 1], stack := m.stack[..|m.stack| - 1]), false))
  {
  }

  /** 00EE with nothing on the stack is a fault, not a jump. */
  lemma ReturnOnEmptyStackFaults(m: Machine, quirks: Quirks, keys: Keys, rnd: Byte, x: Nibble)
    requires Valid(m) && Current(m) == Ret(x) && m.stack == []
    ensures Step(m, quirks, keys, rnd) == Err(StackUnderflow)
  {
  }

  /** The condition under which 3xnn, 4xnn, 5xy0 or 9xy0 skips. */
  predicate SkipCond(m: Machine, ins: Instr)
    requires Valid(m) && WellFormed(ins)
  {
    match ins
    case SkipEqImm(x, nn) => m.v[x] == nn
    case SkipNeImm(x, nn) => m.v[x] != nn
    case SkipEqReg(x, y, _) => m.v[x] == m.v[y]
    case SkipNeReg(x, y, _) => m.v[x] != m.v[y]
    case _ => false
  }

  /** 3xnn, 4xnn, 5xy0 and 9xy0: PC moves on by 4 when the condition holds
      and by 2 otherwise; nothing else changes. */
  lemma SkipsAdvance(m: Machine, quirks: Quirks, keys: Keys, rnd: Byte)
    requires Valid(m)
    requires var ins := Current(m);
      ins.SkipEqImm? || ins.SkipNeImm? || ins.SkipEqReg? || ins.SkipNeReg?
    ensures Step(m, quirks, keys, rnd) == Ok(m.(pc := m.pc + if SkipCond(m, Current(m)) then 4 else 2))
  {
    var ins := Current(m);
    ExecuteSkips(m, quirks, keys, rnd, ins);
    StepIsAdvance(m, quirks, keys, rnd, SkipIf(m, SkipCond(m, ins)));
    AdvanceSkip(m, SkipCond(m, ins));
  }

  lemma AdvanceSkip(m: Machine, cond: bool)
    ensures Advance(Ok(SkipIf(m, cond))) == Ok(m.(pc := m.pc + if cond then 4 else 2))
  {
  }

  lemma ExecuteSkips(m: Machine, quirks: Quirks, keys: Keys, rnd: Byte, ins: Instr)
    requires Valid(m) && WellFormed(ins)
    requires ins.SkipEqImm? || ins.SkipNeImm? || ins.SkipEqReg? || ins.SkipNeReg?
    ensures Execute(m, quirks, keys, rnd, ins) == Ok(SkipIf(m, SkipCond(m, ins)))
  {
  }

  /** Ex9E and ExA1: a register above 15 names no key, so neither skips. */
  lemma KeySkips(m: Machine, quirks: Quirks, keys: Keys, rnd: Byte, x: Nibble)
    requires Valid(m)
    ensures var r := After(m, quirks, keys, rnd, SkipKey(x));
      r == m.(pc := r.pc) && (r.pc == m.pc + 2 <==> m.v[x] < 16 && keys[m.v[x]])
    ensures var r := After(m, quirks, keys, rnd, SkipNoKey(x));
      r == m.(pc := r.pc) && (r.pc == m.pc + 2 <==> m.v[x] < 16 && !keys[m.v[x]])
  {
  }

  /** Bnnn: to nnn + V0 with the legacy quirk, to x + nn + Vx without it. */
  lemma JumpWithOffset(m: Machine, quirks: Quirks, keys: Keys, rnd: Byte, x: Nibble, nn: nat)
    requires Valid(m) && Current(m) == JumpOffset(x, nn)
    ensures Step(m, quirks, keys, rnd) ==
      Ok(m.(pc := if quirks.jumpWithOffsetLegacy then x * 256 + nn + m.v[0] else x + nn + m.v[x]))
  {
    var target := if quirks.jumpWithOffsetLegacy then x * 256 + nn + m.v[0] else x + nn + m.v[x];
    ExecuteJumpOffset(m, quirks, keys, rnd, x, nn);
    StepOfEffect(m, quirks, keys, rnd, Effect(m.(pc := target), false));
  }

  lemma ExecuteJumpOffset(m: Machine, quirks: Quirks, keys: Keys, rnd: Byte, x: Nibble, nn: nat)
    requires Valid(m) && nn < 256
    ensures Execute(m, quirks, keys, rnd, JumpOffset(x, nn)) ==
      Ok(Effect(m.(pc := if quirks.jumpWithOffsetLegacy then x * 256 + nn + m.v[0] else x + nn + m.v[x]), false))
  {
  }

  // ---------------------------------------------------------------------
  // Registers.

  /** 6xnn: Vx = nn and no other register changes. */
  lemma AfterUpdate(m: Machine, quirks: Quirks, keys: Keys, rnd: Byte, ins: Instr)
    requires Valid(m) && WellFormed(ins) && IsUpdate(ins)
    ensures After(m, quirks, keys, rnd, ins) == ExecuteRegs(m, quirks, rnd, ins).m
  {
    ExecuteUpdate(m, quirks, keys, rnd, ins);
  }

  lemma ExecuteUpdate(m: Machine, quirks: Quirks, keys: Keys, rnd: Byte, ins: Instr)
    requires Valid(m) && WellFormed(ins) && IsUpdate(ins)
    ensures Execute(m, quirks, keys, rnd, ins) == Ok(ExecuteRegs(m, quirks, rnd, ins))
  {
    assert !IsFlow(ins) && !IsSkip(ins);
  }

  lemma SetImmediate(m: Machine, quirks: Quirks, keys: Keys, rnd: Byte, x: Nibble, nn: nat)
    requires Valid(m) && nn < 256
    ensures var r := After(m, quirks, keys, rnd, SetImm(x, nn));
      r.v[x] == nn && forall k :: 0 <= k < 16 && k != x ==> r.v[k] == m.v[k]
    ensures var r := After(m, quirks, keys, rnd, SetImm(x, nn));
      r == m.(v := r.v)
  {
  }

  /** 7xnn: Vx = (Vx + nn) mod 256 and VF is untouched for x != F. */
  lemma AddImmediate(m: Machine, quirks: Quirks, keys: Keys, rnd: Byte, x: Nibble, nn: nat)
    requires Valid(m) && nn < 256
    ensures var r := After(m, quirks, keys, rnd, AddImm(x, nn));
      && r.v[x] == (m.v[x] as int + nn) % 256
      && (forall k :: 0 <= k < 16 && k != x ==> r.v[k] == m.v[k])
      && r == m.(v := r.v)
  {
  }

  /** 6xnn then 7xmm: Vx = (nn + mm) mod 256. */
  lemma SetThenAdd(m: Machine, quirks: Quirks, keys: Keys, rnd: Byte, x: Nibble, nn: nat, mm: nat)
    requires Valid(m) && nn < 256 && mm < 256
    ensures var m1 := After(m, quirks, keys, rnd, SetImm(x, nn));
      After(m1, quirks, keys, rnd, AddImm(x, mm)).v[x] == (nn + mm) % 256
  {
  }

  /** 8xy0 .. 8xy3: Vx becomes Vy, or Vx | Vy, Vx & Vy, Vx ^ Vy bit by bit;
      no other register changes. */
  lemma LogicOps(m: Machine, quirks: Quirks, keys: Keys, rnd: Byte, op: AluOp, x: Nibble, y: Nibble)
    requires Valid(m) && op in {Mov, Or, And, Xor}
    ensures var r := After(m, quirks, keys, rnd, Alu(op, x, y));
      && r == m.(v := r.v)
      && (forall k :: 0 <= k < 16 && k != x ==> r.v[k] == m.v[k])
      && (op == Mov ==> r.v[x] == m.v[y])
      && (op != Mov ==>
           var bop := if op == Or then OrOp else if op == And then AndOp else XorOp;
           forall j :: 0 <= j < 8 ==> Bit(r.v[x], j) == Combine(bop, Bit(m.v[x], j), Bit(m.v[y], j)))
  {
    AfterUpdate(m, quirks, keys, rnd, Alu(op, x, y));
  }

  /** 8xy4: the sum modulo 256 in Vx and the carry in VF; the flag is written
      last, so for x = F the carry is what remains. */
  lemma AddWithCarry(m: Machine, quirks: Quirks, keys: Keys, rnd: Byte, x: Nibble, y: Nibble)
    requires Valid(m)
    ensures var r := After(m, quirks, keys, rnd, Alu(Add, x, y));
      && r.v[VF] == (if m.v[x] as int + m.v[y] > 255 then 1 else 0)
      && (x != VF ==> r.v[x] == (m.v[x] as int + m.v[y]) % 256)
      && (forall k :: 0 <= k < 16 && k != x && k != VF ==> r.v[k] == m.v[k])
  {
  }

  /** 8xy5 and 8xy7: the difference modulo 256 in Vx, and VF = 1 exactly
      when the minuend is at least the subtrahend. */
  lemma SubtractWithBorrow(m: Machine, quirks: Quirks, keys: Keys, rnd: Byte, x: Nibble, y: Nibble)
    requires Valid(m)
    ensures var r := After(m, quirks, keys, rnd, Alu(Sub, x, y));
      && r.v[VF] == (if m.v[x] >= m.v[y] then 1 else 0)
      && (x != VF ==> r.v[x] == (m.v[x] as int - m.v[y]) % 256)
    ensures var r := After(m, quirks, keys, rnd, Alu(SubN, x, y));
      && r.v[VF] == (if m.v[y] >= m.v[x] then 1 else 0)
      && (x != VF ==> r.v[x] == (m.v[y] as int - m.v[x]) % 256)
  {
    AfterUpdate(m, quirks, keys, rnd, Alu(Sub, x, y));
    AfterUpdate(m, quirks, keys, rnd, Alu(SubN, x, y));
  }

  /** 8xy6 and 8xyE: the source is Vy with the shift quirk and Vx without;
      VF receives the bit shifted out of it (bit 0, bit 7). */
  lemma Shifts(m: Machine, quirks: Quirks, keys: Keys, rnd: Byte, x: Nibble, y: Nibble)
    requires Valid(m)
    ensures var src := if quirks.shiftVxIsVy then m.v[y] else m.v[x];
      var r := After(m, quirks, keys, rnd, Alu(Shr, x, y));
      && r.v[VF] == src % 2
      && (x != VF ==> r.v[x] == src / 2)
    ensures var src := if quirks.shiftVxIsVy then m.v[y] else m.v[x];
      var r := After(m, quirks, keys, rnd, Alu(Shl, x, y));
      && r.v[VF] == src / 128
      && (x != VF ==> r.v[x] == (2 * src as int) % 256)
  {
    AfterUpdate(m, quirks, keys, rnd, Alu(Shr, x, y));
    AfterUpdate(m, quirks, keys, rnd, Alu(Shl, x, y));
  }

  /** Cxnn: the random byte masked by nn, so Vx has no bit outside nn and is
      0 when nn is 0. */
  lemma RandomMasked(m: Machine, quirks: Quirks, keys: Keys, rnd: Byte, x: Nibble, nn: nat)
    requires Valid(m) && nn < 256
    ensures var r := After(m, quirks, keys, rnd, Rand(x, nn));
      && (forall j :: 0 <= j < 8 && Bit(nn, j) == 0 ==> Bit(r.v[x], j) == 0)
      && (nn == 0 ==> r.v[x] == 0)
      && r == m.(v := m.v[x := r.v[x]])
  {
    AfterUpdate(m, quirks, keys, rnd, Rand(x, nn));
    if nn == 0 {
      AndZero(rnd, 8);
    }
  }

  // ---------------------------------------------------------------------
  // Index register and memory.

  /** Fx1E: I + Vx, less 4096 and with VF = 1 when the sum passes 4095;
      otherwise VF keeps its value. */
  lemma AddToIndex(m: Machine, quirks: Quirks, keys: Keys, rnd: Byte, x: Nibble)
    requires Valid(m)
    ensures var r := After(m, quirks, keys, rnd, AddIndex(x));
      var s := m.i + m.v[x];
      && r.i == (if s > 4095 then s - 4096 else s)
      && r.v == (if s > 4095 then m.v[VF := 1] else m.v)
      && r == m.(i := r.i, v := r.v)
  {
  }

  /** Fx33: the decimal digits of Vx, most significant first and without
      leading zeros, at I .. I + len - 1; I and all other memory unchanged.
      Digits that would not fit are not written at all. */
  lemma BcdDigits(m: Machine, quirks: Quirks, keys: Keys, rnd: Byte, x: Nibble)
    requires Valid(m)
    ensures var r := After(m, quirks, keys, rnd, Bcd(x));
      var d := DecimalDigits(m.v[x]);
      && r == m.(ram := r.ram)
      && Horner(d, 10) == m.v[x]
      && (m.i + |d| <= RAM_SIZE ==>
           forall a :: 0 <= a < RAM_SIZE ==>
             r.ram[a] == if m.i <= a < m.i + |d| then d[a - m.i] else m.ram[a])
      && (m.i + |d| > RAM_SIZE ==> r.ram == m.ram)
  {
  }

  /** Fx55 writes V0 .. Vx at I (or I + 1) onwards and nothing else; I moves
      past the block only with the quirk. */
  lemma StoreRegisters(m: Machine, quirks: Quirks, keys: Keys, rnd: Byte, x: Nibble)
    requires Valid(m)
    ensures var r := After(m, quirks, keys, rnd, Store(x));
      var inc := quirks.storeIncrementIr;
      var lo := SlotAddress(inc, m.i, 0);
      && r == m.(ram := r.ram, i := r.i)
      && r.i == (if inc then m.i + x + 1 else m.i)
      && forall a :: 0 <= a < RAM_SIZE ==>
           r.ram[a] == if lo <= a <= lo + x then m.v[a - lo] else m.ram[a]
  {
    AfterStore(m, quirks, keys, rnd, x);
    StoreLoopCells(m.ram, m.v, m.i, 0, x, quirks.storeIncrementIr);
  }

  lemma AfterStore(m: Machine, quirks: Quirks, keys: Keys, rnd: Byte, x: Nibble)
    requires Valid(m)
    ensures var s := StoreLoop(m.ram, m.v, m.i, 0, x, quirks.storeIncrementIr);
      After(m, quirks, keys, rnd, Store(x)) == m.(ram := s.0, i := s.1)
  {
  }

  lemma AfterLoad(m: Machine, quirks: Quirks, keys: Keys, rnd: Byte, x: Nibble)
    requires Valid(m) && !Faults(m, quirks, Load(x))
    ensures var l := LoadLoop(m.ram, m.v, m.i, 0, x, quirks.storeIncrementIr);
      l.Ok? && After(m, quirks, keys, rnd, Load(x)) == m.(v := l.value.0, i := l.value.1)
  {
    LoadInRange(m, quirks, x);
    ExecuteLoad(m, quirks, keys, rnd, x);
  }

  lemma LoadInRange(m: Machine, quirks: Quirks, x: Nibble)
    requires Valid(m) && !Faults(m, quirks, Load(x))
    ensures LoadLoop(m.ram, m.v, m.i, 0, x, quirks.storeIncrementIr).Ok?
  {
  }

  lemma ExecuteLoad(m: Machine, quirks: Quirks, keys: Keys, rnd: Byte, x: Nibble)
    requires Valid(m) && LoadLoop(m.ram, m.v, m.i, 0, x, quirks.storeIncrementIr).Ok?
    ensures var l := LoadLoop(m.ram, m.v, m.i, 0, x, quirks.storeIncrementIr);
      Execute(m, quirks, keys, rnd, Load(x)) == Ok(Effect(m.(v := l.value.0, i := l.value.1), true))
  {
  }

  /** Fx55 then Fx65 with the same x, quirk and starting I brings back
      V0 .. Vx, whatever the registers held in between, provided the block
      lies inside memory; V(x+1) .. VF keep their in-between values. */
  lemma StoreThenLoad(m: Machine, quirks: Quirks, keys: Keys, rnd: Byte, x: Nibble, w: Regs)
    requires Valid(m) && SlotAddress(quirks.storeIncrementIr, m.i, x) < RAM_SIZE
    ensures var m1 := After(m, quirks, keys, rnd, Store(x)).(i := m.i, v := w);
      && !Faults(m1, quirks, Load(x))
      && var m2 := After(m1, quirks, keys, rnd, Load(x));
      && m2.v == seq(16, k requires 0 <= k < 16 => if k <= x then m.v[k] else w[k])
      && m2.i == (if quirks.storeIncrementIr then m.i + x + 1 else m.i)
  {
    var m1 := After(m, quirks, keys, rnd, Store(x)).(i := m.i, v := w);
    StoreRegisters(m, quirks, keys, rnd, x);
    AfterLoad(m1, quirks, keys, rnd, x);
    var m2 := After(m1, quirks, keys, rnd, Load(x));
    forall k | 0 <= k < 16
      ensures m2.v[k] == if k <= x then m.v[k] else w[k]
    {
    }
  }

  // ---------------------------------------------------------------------
  // Screen.

  /** 00E0: every pixel off; nothing else changes. */
  lemma ClearScreen(m: Machine, quirks: Quirks, keys: Keys, rnd: Byte, x: Nibble)
    requires Valid(m)
    ensures var r := After(m, quirks, keys, rnd, Cls(x));
      && r == m.(screen := r.screen)
      && forall c, w :: 0 <= c < WIDTH && 0 <= w < HEIGHT ==> !r.screen[c][w]
  {
  }

  /** Dxyn: each pixel the sprite covers is flipped, the others kept; VF = 1
      exactly when some pixel went from on to off. */
  lemma DrawFlipsCovered(m: Machine, quirks: Quirks, keys: Keys, rnd: Byte, x: Nibble, y: Nibble, n: Nibble)
    requires Valid(m)
    ensures var r := After(m, quirks, keys, rnd, Draw(x, y, n));
      var rows := SpriteRows(m.ram, m.i, n);
      var cx := m.v[x] % WIDTH;
      var cy := m.v[y] % HEIGHT;
      && r == m.(screen := r.screen, v := m.v[VF := r.v[VF]])
      && (forall c, w :: 0 <= c < WIDTH && 0 <= w < HEIGHT ==>
            r.screen[c][w] == (m.screen[c][w] != Covers(rows, cx, cy, quirks.drawSpriteWrap, Cell(c, w))))
      && (r.v[VF] == 1 <==>
            exists c, w :: 0 <= c < WIDTH && 0 <= w < HEIGHT && m.screen[c][w] && !r.screen[c][w])
      && r.v[VF] <= 1
  {
    AfterDraw(m, quirks, keys, rnd, x, y, n);
    ExecDrawXor(m, quirks, x, y, n);
  }

  lemma AfterDraw(m: Machine, quirks: Quirks, keys: Keys, rnd: Byte, x: Nibble, y: Nibble, n: Nibble)
    requires Valid(m)
    ensures After(m, quirks, keys, rnd, Draw(x, y, n)) == ExecDraw(m, quirks, x, y, n)
  {
    AfterUpdate(m, quirks, keys, rnd, Draw(x, y, n));
  }

  lemma ExecDrawXor(m: Machine, quirks: Quirks, x: Nibble, y: Nibble, n: Nibble)
    requires Valid(m)
    ensures var r := ExecDraw(m, quirks, x, y, n);
      var rows := SpriteRows(m.ram, m.i, n);
      var cx := m.v[x] % WIDTH;
      var cy := m.v[y] % HEIGHT;
      && r == m.(screen := r.screen, v := m.v[VF := r.v[VF]])
      && (forall c, w :: 0 <= c < WIDTH && 0 <= w < HEIGHT ==>
            r.screen[c][w] == (m.screen[c][w] != Covers(rows, cx, cy, quirks.drawSpriteWrap, Cell(c, w))))
      && (r.v[VF] == 1 <==>
            exists c, w :: 0 <= c < WIDTH && 0 <= w < HEIGHT && m.screen[c][w] && !r.screen[c][w])
      && r.v[VF] <= 1
  {
    var rows := SpriteRows(m.ram, m.i, n);
    DrawSpriteXor(m.screen, rows, m.v[x] % WIDTH, m.v[y] % HEIGHT, quirks.drawSpriteWrap);
  }

  /** Drawing the same sprite twice at the same place restores the screen,
      as long as neither coordinate register is VF (which the first draw
      overwrites). */
  lemma DrawTwice(m: Machine, quirks: Quirks, keys: Keys, rnd: Byte, x: Nibble, y: Nibble, n: Nibble)
    requires Valid(m) && x != VF && y != VF
    ensures var m1 := After(m, quirks, keys, rnd, Draw(x, y, n));
      After(m1, quirks, keys, rnd, Draw(x, y, n)).screen == m.screen
  {
    var rows := SpriteRows(m.ram, m.i, n);
    var m1 := After(m, quirks, keys, rnd, Draw(x, y, n));
    AfterDraw(m, quirks, keys, rnd, x, y, n);
    AfterDraw(m1, quirks, keys, rnd, x, y, n);
    DrawTwiceRestores(m.screen, rows, m.v[x] % WIDTH, m.v[y] % HEIGHT, quirks.drawSpriteWrap);
  }
}
