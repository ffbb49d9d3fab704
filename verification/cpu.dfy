/** The interpreter proper: the machine state, `ProcessInstruction` as a
    pure function of the state, and the fetch / execute / advance cycle. */
module Cpu {
  import opened Util
  import opened Display
  import opened Memory
  import opened Decoder

  /** The sixteen registers V0 .. VF. */
  type Regs = r: seq<Byte> | |r| == 16 witness seq(16, _ => 0)

  /** The sixteen keys, true while held. */
  type Keys = k: seq<bool> | |k| == 16 witness seq(16, _ => false)

  /** The flag register. */
  const VF: Nibble := 0xF

  /** Everything an instruction can read or change. I and PC are unbounded:
      nothing in the interpreter keeps them below 4096. The return stack is a
      JavaScript array, so it has no depth limit either. */
  datatype Machine = Machine(
    ram: Ram,
    pc: nat,
    stack: seq<nat>,
    i: nat,
    delay: Byte,
    sound: Byte,
    v: Regs,
    screen: Grid)

  predicate Valid(m: Machine)
  {
    IsGrid(m.screen)
  }

  /** The four behaviour switches; the interpreter starts with only
      `drawSpriteWrap` on. */
  datatype Quirks = Quirks(
    shiftVxIsVy: bool,
    jumpWithOffsetLegacy: bool,
    storeIncrementIr: bool,
    drawSpriteWrap: bool)

  const DefaultQuirks := Quirks(false, false, false, true)

  /** Where the interpreter goes wrong instead of computing a value:
      00EE with nothing on the stack leaves PC `undefined`, Fx65 past the end
      of memory loads `undefined` into a register, and Fx0A as written names
      a variable that does not exist. */
  datatype Fault = StackUnderflow | LoadOutOfRange | UnboundKeyboard

  datatype Result<T> = Ok(value: T) | Err(fault: Fault)

  /** The machine after an instruction, and whether PC still has to move on
      to the next instruction (`shouldIncrementPC`). */
  datatype Effect = Effect(m: Machine, advance: bool)

  // ---------------------------------------------------------------------
  // Arithmetic of the 7xnn and 8xyn families.

  /** 7xnn: add and drop the carry; VF is not involved. */
  function AddNoCarry(a: Byte, b: Byte): (r: Byte)
    ensures r == (a + b) % 256
    ensures r < a <==> a + b > 255
  {
    var s := a + b;
    if s > 255 then s - 256 else s
  }

  /** 8xy4: the sum and the carry out of bit 7. */
  function AddCarry(a: Byte, b: Byte): (r: (Byte, Byte))
    ensures r.0 + 256 * r.1 == a + b
    ensures r.1 == 1 <==> a + b > 255
    ensures r.1 <= 1
  {
    var s := a + b;
    if s > 255 then (s - 256, 1) else (s, 0)
  }

  /** 8xy5 (a = Vx, b = Vy) and 8xy7 (a = Vy, b = Vx): the difference modulo
      256, and VF = 1 exactly when there was no borrow. */
  function SubBorrow(a: Byte, b: Byte): (r: (Byte, Byte))
    ensures r.0 == (a - b) % 256
    ensures r.0 - 256 * (1 - r.1) == a - b
    ensures r.1 == 1 <==> a >= b
    ensures r.1 <= 1
  {
    var d := a - b;
    if d >= 0 then (d, 1) else (d + 256, 0)
  }

  /** 8xy6: `src >> 1`, and the bit shifted out: `src & 0x01`, a mask of the
      low bit, so `src % 2` (`Util.MaskIsMod`). */
  function ShiftRight(src: Byte): (r: (Byte, Byte))
    ensures 2 * r.0 + r.1 == src
    ensures r.1 <= 1 && r.0 < 128
  {
    var flag := if src % 2 != 0 then 1 else 0;
    (src / 2, flag)
  }

  /** 8xyE: `(src << 1) & 0xFF`, and the bit shifted out: `src & 0x80` is
      non-zero exactly when the byte is at least 128. */
  function ShiftLeft(src: Byte): (r: (Byte, Byte))
    ensures r.0 + 256 * r.1 == 2 * src
    ensures r.1 <= 1 && r.0 % 2 == 0
  {
    var flag := if src >= 128 then 1 else 0;
    ((src * 2) % 256, flag)
  }

  /** `a | b`, `a & b`, `a ^ b` on two bytes: a byte whose every bit is the
      operator applied to the operands' bits. */
  function ByteOp(op: BitOp, a: Byte, b: Byte): (r: Byte)
    ensures forall j :: 0 <= j < 8 ==> Bit(r, j) == Combine(op, Bit(a, j), Bit(b, j))
  {
    assert Pow2(8) == 256;
    BitwiseBits(op, a, b, 8);
    Bitwise(op, a, b, 8)
  }

  /** The 8xyn operations. The result goes to Vx first and the flag to VF
      after it, so for x = F the flag is what VF ends up holding. Only Vx and
      VF can change, and VF only for the five operations that set a flag. */
  function ExecAlu(v: Regs, op: AluOp, x: Nibble, y: Nibble, shiftVxIsVy: bool): (r: Regs)
    ensures forall k :: 0 <= k < 16 && k != x && k != VF ==> r[k] == v[k]
    ensures op in {Mov, Or, And, Xor} ==> r[VF] == v[VF] || x == VF
  {
    var res := AluValue(op, v[x], v[y], if shiftVxIsVy then v[y] else v[x]);
    if res.1.Some? then v[x := res.0][VF := res.1.value] else v[x := res.0]
  }

  /** The value an 8xyn operation leaves for Vx and the flag it leaves for
      VF, if it sets one; `src` is the shift operand the quirk selects. */
  function AluValue(op: AluOp, vx: Byte, vy: Byte, src: Byte): (r: (Byte, Option<Byte>))
    ensures r.1.None? <==> op in {Mov, Or, And, Xor}
  {
    match op
    case Mov => (vy, None)
    case Or => (ByteOp(OrOp, vx, vy), None)
    case And => (ByteOp(AndOp, vx, vy), None)
    case Xor => (ByteOp(XorOp, vx, vy), None)
    case Add => var c := AddCarry(vx, vy); (c.0, Some(c.1))
    case Sub => var c := SubBorrow(vx, vy); (c.0, Some(c.1))
    case SubN => var c := SubBorrow(vy, vx); (c.0, Some(c.1))
    case Shr => var c := ShiftRight(src); (c.0, Some(c.1))
    case Shl => var c := ShiftLeft(src); (c.0, Some(c.1))
  }

  // ---------------------------------------------------------------------
  // Fx33, Fx55 and Fx65.

  /** The decimal digits of a byte, most significant first, with no leading
      zero: `parseInt(v).toString().split('').map(Number)`. */
  function DecimalDigits(b: Byte): (d: seq<Byte>)
    ensures |d| == (if b < 10 then 1 else if b < 100 then 2 else 3)
    ensures forall k :: 0 <= k < |d| ==> d[k] < 10
    ensures |d| > 1 ==> d[0] != 0
    ensures Horner(d, 10) == b
  {
    if b < 10 then
      assert [b][..0] == [];
      [b]
    else if b < 100 then
      HornerTwo(b / 10, b % 10, 10);
      [b / 10, b % 10]
    else
      HornerThree(b / 100, (b / 10) % 10, b % 10, 10);
      [b / 100, (b / 10) % 10, b % 10]
  }

  /** The digits are exactly those of the decimal string of the byte, read
      back one character at a time. */
  lemma DecimalDigitsAreToString(b: Byte)
    ensures DecimalDigits(b) == DigitValues(ToBase(b, 10))
  {
    var s := ToBase(b, 10);
    if b < 10 {
      DigitCharValue(b);
    } else if b < 100 {
      assert s == [DigitChar(b / 10), DigitChar(b % 10)];
      DigitCharValue(b / 10);
      DigitCharValue(b % 10);
    } else {
      assert ToBase(b / 10, 10) == [DigitChar(b / 100), DigitChar((b / 10) % 10)];
      assert s == [DigitChar(b / 100), DigitChar((b / 10) % 10), DigitChar(b % 10)];
      DigitCharValue(b / 100);
      DigitCharValue((b / 10) % 10);
      DigitCharValue(b % 10);
    }
  }

  lemma HornerTwo(a: int, c: int, base: nat)
    ensures Horner([a, c], base) == a * base + c
  {
    assert [a, c][..1] == [a];
    assert [a][..0] == [];
    assert Horner([a], base) == a;
  }

  lemma HornerThree(a: int, b: int, c: int, base: nat)
    ensures Horner([a, b, c], base) == (a * base + b) * base + c
  {
    assert [a, b, c][..2] == [a, b];
    HornerTwo(a, b, base);
  }

  /** The address iteration k (counted from 0) of Fx55 / Fx65 touches when I
      was `base` before the instruction: I + k, or I + k + 1 when the
      instruction advances I before each access. */
  function SlotAddress(storeIncrementIr: bool, base: nat, k: nat): nat
  {
    if storeIncrementIr then base + k + 1 else base + k
  }

  /** The Fx55 loop from iteration `idx` on, with I = `ir` at that point.
      I moves on by one per iteration only with the quirk; what reaches
      memory is `StoreLoopCells`. */
  function StoreLoop(ram: Ram, v: Regs, ir: nat, idx: nat, x: Nibble, inc: bool): (r: (Ram, nat))
    requires idx <= x + 1
    ensures r.1 == if inc then ir + (x + 1 - idx) else ir
    decreases x + 1 - idx
  {
    if idx > x then (ram, ir)
    else
      var ir' := if inc then ir + 1 else ir;
      var addr := if inc then ir + 1 else ir + idx;
      StoreLoop(MemCpy(ram, addr, [v[idx]]), v, ir', idx + 1, x, inc)
  }

  /** What the Fx55 loop from iteration `idx` on leaves in memory: V_idx ..
      V_x in consecutive cells starting at the address iteration `idx` uses,
      and every other cell as it was. Cells past the end of memory are
      refused one by one by `MemCpy`. */
  ghost predicate StoredFrom(ram: Ram, v: Regs, ir: nat, idx: nat, x: Nibble, inc: bool)
    requires idx <= x + 1
  {
    var lo := if inc then ir + 1 else ir + idx;
    forall a :: 0 <= a < RAM_SIZE ==>
      StoreLoop(ram, v, ir, idx, x, inc).0[a] ==
        if lo <= a <= lo + (x - idx) then v[idx + (a - lo)] else ram[a]
  }

  lemma {:induction false} StoreLoopCells(ram: Ram, v: Regs, ir: nat, idx: nat, x: Nibble, inc: bool)
    requires idx <= x + 1
    ensures StoredFrom(ram, v, ir, idx, x, inc)
    decreases x + 1 - idx
  {
    if idx <= x {
      var ir' := if inc then ir + 1 else ir;
      var lo := if inc then ir + 1 else ir + idx;
      StoreLoopCells(MemCpy(ram, lo, [v[idx]]), v, ir', idx + 1, x, inc);
      StoreLoopStep(ram, v, ir, idx, x, inc);
    } else {
      assert StoreLoop(ram, v, ir, idx, x, inc).0 == ram;
    }
  }

  /** One iteration of the Fx55 loop in front of the rest: the inductive
      step of `StoreLoopCells`. */
  lemma StoreLoopStep(ram: Ram, v: Regs, ir: nat, idx: nat, x: Nibble, inc: bool)
    requires idx <= x
    requires var ir' := if inc then ir + 1 else ir;
      var lo := if inc then ir + 1 else ir + idx;
      StoredFrom(MemCpy(ram, lo, [v[idx]]), v, ir', idx + 1, x, inc)
    ensures StoredFrom(ram, v, ir, idx, x, inc)
  {
    forall a | 0 <= a < RAM_SIZE
      ensures var lo := if inc then ir + 1 else ir + idx;
        StoreLoop(ram, v, ir, idx, x, inc).0[a] ==
          if lo <= a <= lo + (x - idx) then v[idx + (a - lo)] else ram[a]
    {
      StoreCellStep(ram, v, ir, idx, x, inc, a);
    }
  }

  /** `StoreLoopStep` for one cell. */
  lemma StoreCellStep(ram: Ram, v: Regs, ir: nat, idx: nat, x: Nibble, inc: bool, a: nat)
    requires idx <= x && a < RAM_SIZE
    requires var ir' := if inc then ir + 1 else ir;
      var lo := if inc then ir + 1 else ir + idx;
      var lo' := if inc then ir' + 1 else ir' + (idx + 1);
      var ram' := MemCpy(ram, lo, [v[idx]]);
      StoreLoop(ram', v, ir', idx + 1, x, inc).0[a] ==
        if lo' <= a <= lo' + (x - (idx + 1)) then v[idx + 1 + (a - lo')] else ram'[a]
    ensures var lo := if inc then ir + 1 else ir + idx;
      StoreLoop(ram, v, ir, idx, x, inc).0[a] ==
        if lo <= a <= lo + (x - idx) then v[idx + (a - lo)] else ram[a]
  {
    var ir' := if inc then ir + 1 else ir;
    var lo := if inc then ir + 1 else ir + idx;
    var lo' := if inc then ir' + 1 else ir' + (idx + 1);
    assert lo' == lo + 1;
    StoreOne(ram, lo, v[idx], a);
  }

  /** A one-byte copy changes at most the cell it targets. */
  lemma StoreOne(ram: Ram, addr: nat, b: Byte, a: nat)
    requires a < RAM_SIZE
    ensures MemCpy(ram, addr, [b])[a] == if a == addr then b else ram[a]
  {
  }

  /** The Fx65 loop from iteration `idx` on: V_idx .. V_x are read from
      consecutive cells. A read past the end of memory yields `undefined`,
      which is a fault here. */
  function LoadLoop(ram: Ram, v: Regs, ir: nat, idx: nat, x: Nibble, inc: bool): (r: Result<(Regs, nat)>)
    requires idx <= x + 1
    ensures var lo := if inc then ir + 1 else ir + idx;
      r.Err? <==> idx <= x && lo + (x - idx) >= RAM_SIZE
    ensures var lo := if inc then ir + 1 else ir + idx;
      r.Ok? ==>
        && r.value.1 == (if inc then ir + (x + 1 - idx) else ir)
        && forall k :: 0 <= k < 16 ==>
             r.value.0[k] == if idx <= k <= x then ram[lo + (k - idx)] else v[k]
    ensures r.Err? ==> r.fault == LoadOutOfRange
    decreases x + 1 - idx
  {
    if idx > x then Ok((v, ir))
    else
      var ir' := if inc then ir + 1 else ir;
      var addr := if inc then ir' else ir' + idx;
      if addr >= RAM_SIZE then
        Err(LoadOutOfRange)
      else
        LoadLoop(ram, v[idx := ram[addr]], ir', idx + 1, x, inc)
  }

  // ---------------------------------------------------------------------
  // Keys.

  /** Ex9E skips when `keys[Vx] === 1`; for Vx > 15 the lookup is
      `undefined`, so it does not. */
  predicate Pressed(keys: Keys, k: Byte)
  {
    k < 16 && keys[k]
  }

  /** ExA1 skips when `keys[Vx] === 0`; for Vx > 15 it does not either. */
  predicate Released(keys: Keys, k: Byte)
  {
    k < 16 && !keys[k]
  }

  /** `keys.findIndex(k => k === 1)` searched from `from` on. */
  function LowestPressedFrom(keys: Keys, from: nat): (r: Option<Nibble>)
    requires from <= 16
    ensures r.None? <==> forall k :: from <= k < 16 ==> !keys[k]
    ensures r.Some? ==>
      from <= r.value && keys[r.value] && forall k :: from <= k < r.value ==> !keys[k]
    decreases 16 - from
  {
    if from == 16 then None
    else if keys[from] then Some(from)
    else LowestPressedFrom(keys, from + 1)
  }

  function LowestPressed(keys: Keys): (r: Option<Nibble>)
    ensures r.None? <==> forall k :: 0 <= k < 16 ==> !keys[k]
    ensures r.Some? ==> keys[r.value] && forall k :: 0 <= k < r.value ==> !keys[k]
  {
    LowestPressedFrom(keys, 0)
  }

  /** Fx0A as written: the key array is looked up through a name that is
      bound neither in the method nor in the module, so the instruction
      always throws before it reads any key. */
  function WaitKeyAsWritten(m: Machine, keys: Keys, x: Nibble): (r: Result<Effect>)
    ensures r == Err(UnboundKeyboard)
  {
    Err(UnboundKeyboard)
  }

  /** Fx0A as intended: with no key held the instruction runs again (PC
      does not advance); otherwise Vx receives the lowest held key. */
  function WaitKey(m: Machine, keys: Keys, x: Nibble): (r: Effect)
    ensures r.advance <==> exists k :: 0 <= k < 16 && keys[k]
    ensures !r.advance ==> r.m == m
    ensures r.advance ==>
      r.m.v[x] < 16 && keys[r.m.v[x]] && forall k :: 0 <= k < r.m.v[x] ==> !keys[k]
    ensures r.m == m.(v := r.m.v)
    ensures forall k :: 0 <= k < 16 && k != x ==> r.m.v[k] == m.v[k]
  {
    match LowestPressed(keys)
    case None => Effect(m, false)
    case Some(k) => Effect(m.(v := m.v[x := k]), true)
  }

  /** Fx0A as written never hands a key to the program, even with a key
      held, where the intended instruction completes with that key in Vx. */
  lemma WaitKeyAsWrittenDropsKey(m: Machine, keys: Keys, x: Nibble, k: Nibble)
    requires keys[k]
    ensures WaitKeyAsWritten(m, keys, x).Err?
    ensures var r := WaitKey(m, keys, x);
      r.advance && r.m.v[x] <= k && keys[r.m.v[x]]
  {
  }

  // ---------------------------------------------------------------------
  // Dxyn.

  /** The n sprite rows Dxyn reads from I on; a row past the end of memory
      is `undefined`, whose bits `ByteToBits` turns into zeros. */
  function SpriteRows(ram: Ram, base: nat, n: nat): (rows: seq<Byte>)
    ensures |rows| == n
    ensures forall k :: 0 <= k < n ==> rows[k] == ReadOr0(ram, base + k)
  {
    if n == 0 then [] else SpriteRows(ram, base, n - 1) + [ReadOr0(ram, base + n - 1)]
  }

  /** Dxyn: the origin is (Vx & 63, Vy & 31), VF is reset and then set to 1
      when the sprite turns a lit pixel off. */
  function ExecDraw(m: Machine, quirks: Quirks, x: Nibble, y: Nibble, n: Nibble): (r: Machine)
    requires Valid(m)
    ensures Valid(r)
    ensures r == m.(screen := r.screen, v := r.v)
    ensures r.v == m.v[VF := r.v[VF]] && r.v[VF] <= 1
  {
    var cx := m.v[x] % WIDTH;
    var cy := m.v[y] % HEIGHT;
    var d := DrawSprite(m.screen, SpriteRows(m.ram, m.i, n), cx, cy, quirks.drawSpriteWrap);
    m.(screen := d.grid, v := m.v[VF := if d.collision then 1 else 0])
  }

  // ---------------------------------------------------------------------
  // One instruction.

  /** The conditions under which an instruction faults instead of
      completing. */
  predicate Faults(m: Machine, quirks: Quirks, ins: Instr)
  {
    || (ins.Ret? && |m.stack| == 0)
    || (ins.Load? && SlotAddress(quirks.storeIncrementIr, m.i, ins.x) >= RAM_SIZE)
  }

  /** The conditional skips: pass over the next instruction when `cond` holds. */
  function SkipIf(m: Machine, cond: bool): (r: Effect)
    ensures r.advance && r.m == m.(pc := r.m.pc)
    ensures r.m.pc == if cond then m.pc + 2 else m.pc
  {
    Effect(if cond then m.(pc := m.pc + 2) else m, true)
  }

  /** `ProcessInstruction`: the effect of one decoded instruction. */
  function Execute(m: Machine, quirks: Quirks, keys: Keys, rnd: Byte, ins: Instr): (r: Result<Effect>)
    requires Valid(m) && WellFormed(ins)
    ensures r.Err? <==> Faults(m, quirks, ins)
    ensures r.Ok? ==> Valid(r.value.m)
    ensures r.Ok? && !(ins.Call? || ins.Ret?) ==> r.value.m.stack == m.stack
    ensures r.Ok? && !(ins.Ret? || ins.Jump? || ins.Call? || ins.JumpOffset? || ins.WaitKey?) ==>
      r.value.advance
  {
    if IsFlow(ins) then ExecuteFlow(m, quirks, ins)
    else if IsSkip(ins) then Ok(ExecuteSkip(m, keys, ins))
    else if IsUpdate(ins) then Ok(ExecuteRegs(m, quirks, rnd, ins))
    else ExecuteF(m, quirks, keys, ins)
  }

  /** Families 0, 1, 2 and B. */
  predicate IsFlow(ins: Instr)
  {
    ins.Cls? || ins.Ret? || ins.Sys? || ins.Jump? || ins.Call? || ins.JumpOffset?
  }

  /** Families 3, 4, 5, 9 and E. */
  predicate IsSkip(ins: Instr)
  {
    ins.SkipEqImm? || ins.SkipNeImm? || ins.SkipEqReg? || ins.SkipNeReg?
      || ins.SkipKey? || ins.SkipNoKey? || ins.KeyNone?
  }

  /** Families 6, 7, 8, A, C and D. */
  predicate IsUpdate(ins: Instr)
  {
    ins.SetImm? || ins.AddImm? || ins.Alu? || ins.AluNone? || ins.SetIndex?
      || ins.Rand? || ins.Draw?
  }

  /** Families 0, 1, 2 and B: the screen clear and the instructions that
      set PC themselves. */
  function ExecuteFlow(m: Machine, quirks: Quirks, ins: Instr): (r: Result<Effect>)
    requires Valid(m) && WellFormed(ins)
    requires IsFlow(ins)
    ensures r.Err? <==> Faults(m, quirks, ins)
    ensures r.Ok? ==> Valid(r.value.m)
    ensures r.Ok? && !(ins.Call? || ins.Ret?) ==> r.value.m.stack == m.stack
    ensures r.Ok? ==> (r.value.advance <==> ins.Cls? || ins.Sys?)
  {
    match ins
    case Cls(_) => Ok(Effect(m.(screen := Blank()), true))
    case Ret(_) =>
      if |m.stack| == 0 then Err(StackUnderflow)
      else Ok(Effect(m.(pc := m.stack[|m.stack| - 1], stack := m.stack[..|m.stack| - 1]), false))
    case Sys(_) => Ok(Effect(m, true))
    case Jump(nnn) => Ok(Effect(m.(pc := nnn), false))
    case Call(nnn) => Ok(Effect(m.(stack := m.stack + [m.pc + 2], pc := nnn), false))
    case JumpOffset(x, nn) =>
      var target := if quirks.jumpWithOffsetLegacy then x * 256 + nn + m.v[0] else x + nn + m.v[x];
      Ok(Effect(m.(pc := target), false))
  }

  /** Families 3, 4, 5, 9 and E: the conditional skips, which touch
      nothing but PC. */
  function ExecuteSkip(m: Machine, keys: Keys, ins: Instr): (r: Effect)
    requires Valid(m) && WellFormed(ins)
    requires IsSkip(ins)
    ensures r.advance && r.m == m.(pc := r.m.pc)
    ensures r.m.pc == m.pc || r.m.pc == m.pc + 2
  {
    var v := m.v;
    match ins
    case SkipEqImm(x, nn) => SkipIf(m, v[x] == nn)
    case SkipNeImm(x, nn) => SkipIf(m, v[x] != nn)
    case SkipEqReg(x, y, _) => SkipIf(m, v[x] == v[y])
    case SkipNeReg(x, y, _) => SkipIf(m, v[x] != v[y])
    case SkipKey(x) => SkipIf(m, Pressed(keys, v[x]))
    case SkipNoKey(x) => SkipIf(m, Released(keys, v[x]))
    case KeyNone(_, _) => Effect(m, true)
  }

  /** Families 6, 7, 8, A, C and D: register, index and screen updates. */
  function ExecuteRegs(m: Machine, quirks: Quirks, rnd: Byte, ins: Instr): (r: Effect)
    requires Valid(m) && WellFormed(ins)
    requires IsUpdate(ins)
    ensures Valid(r.m) && r.advance
    ensures r.m.stack == m.stack && r.m.pc == m.pc
  {
    var v := m.v;
    match ins
    case SetImm(x, nn) => Effect(m.(v := v[x := nn]), true)
    case AddImm(x, nn) => Effect(m.(v := v[x := AddNoCarry(v[x], nn)]), true)
    case Alu(op, x, y) => Effect(m.(v := ExecAlu(v, op, x, y, quirks.shiftVxIsVy)), true)
    case AluNone(_, _, _) => Effect(m, true)
    case SetIndex(nnn) => Effect(m.(i := nnn), true)
    case Rand(x, nn) => Effect(m.(v := v[x := ByteOp(AndOp, rnd, nn)]), true)
    case Draw(x, y, n) => Effect(ExecDraw(m, quirks, x, y, n), true)
  }

  /** The Fx family: timers, the key wait, I arithmetic and the memory
      transfers. */
  function ExecuteF(m: Machine, quirks: Quirks, keys: Keys, ins: Instr): (r: Result<Effect>)
    requires Valid(m) && WellFormed(ins)
    requires !IsFlow(ins) && !IsSkip(ins) && !IsUpdate(ins)
    ensures r.Err? <==> Faults(m, quirks, ins)
    ensures r.Ok? ==> Valid(r.value.m) && r.value.m.stack == m.stack
    ensures r.Ok? && !ins.WaitKey? ==> r.value.advance
  {
    var v := m.v;
    match ins
    case GetDelay(x) => Ok(Effect(m.(v := v[x := m.delay]), true))
    case WaitKey(x) => Ok(WaitKey(m, keys, x))
    case SetDelay(x) => Ok(Effect(m.(delay := v[x]), true))
    case SetSound(x) => Ok(Effect(m.(sound := v[x]), true))
    case AddIndex(x) =>
      var s := m.i + v[x];
      Ok(Effect(if s > 4095 then m.(i := s - 4096, v := v[VF := 1]) else m.(i := s), true))
    case FontChar(x) => Ok(Effect(m.(i := (v[x] % 16) * 5), true))
    case Bcd(x) => Ok(Effect(m.(ram := MemCpy(m.ram, m.i, DecimalDigits(v[x]))), true))
    case Store(x) =>
      var r := StoreLoop(m.ram, v, m.i, 0, x, quirks.storeIncrementIr);
      Ok(Effect(m.(ram := r.0, i := r.1), true))
    case Load(x) =>
      (match LoadLoop(m.ram, v, m.i, 0, x, quirks.storeIncrementIr)
       case Err(f) => Err(f)
       case Ok(r) => Ok(Effect(m.(v := r.0, i := r.1), true)))
    case FNone(_, _) => Ok(Effect(m, true))
  }

  // ---------------------------------------------------------------------
  // Fetch / execute / advance.

  /** The instruction whose word starts at address a, decoded from its two
      bytes. */
  function InstrAt(ram: Ram, a: nat): (ins: Instr)
    ensures WellFormed(ins)
  {
    DecodeBytes(ReadOr0(ram, a), ReadOr0(ram, a + 1))
  }

  /** Decoding the two bytes is decoding the fetched word. */
  lemma InstrAtFetch(ram: Ram, a: nat)
    ensures InstrAt(ram, a) == Decode(Fetch(ram, a))
  {
    DecodeBytesIsDecode(ReadOr0(ram, a), ReadOr0(ram, a + 1), Fetch(ram, a));
  }

  /** The instruction at PC. */
  function Current(m: Machine): (ins: Instr)
    ensures WellFormed(ins)
  {
    InstrAt(m.ram, m.pc)
  }

  /** One pass of the `ProcessCycle` loop body: fetch the word at PC, execute
      it, add 2 to PC if the instruction left the advance flag set. The flag
      is re-armed for the next pass, so it is not part of the state. */
  function Step(m: Machine, quirks: Quirks, keys: Keys, rnd: Byte): (r: Result<Machine>)
    requires Valid(m)
    ensures r.Err? <==> Faults(m, quirks, Current(m))
    ensures r.Ok? ==> Valid(r.value)
  {
    Advance(Execute(m, quirks, keys, rnd, Current(m)))
  }

  /** The last part of a pass: a fault is passed on, otherwise PC moves to
      the next instruction when the advance flag is set. */
  function Advance(r: Result<Effect>): (s: Result<Machine>)
    ensures s.Err? <==> r.Err?
    ensures s.Ok? ==> s.value == r.value.m.(pc := s.value.pc)
    ensures s.Ok? ==> s.value.pc == if r.value.advance then r.value.m.pc + 2 else r.value.m.pc
  {
    match r
    case Err(f) => Err(f)
    case Ok(e) => Ok(if e.advance then e.m.(pc := e.m.pc + 2) else e.m)
  }

  /** Steps run one after the other, one random byte each, stopping at the
      first fault. */
  function Run(m: Machine, quirks: Quirks, keys: Keys, rnds: seq<Byte>): (r: Result<Machine>)
    requires Valid(m)
    ensures r.Ok? ==> Valid(r.value)
    decreases |rnds|
  {
    if rnds == [] then Ok(m)
    else
      match Step(m, quirks, keys, rnds[0])
      case Err(f) => Err(f)
      case Ok(m') => Run(m', quirks, keys, rnds[1..])
  }

  /** Running a prefix and then the rest is running the whole. */
  lemma {:induction false} RunAppend(m: Machine, quirks: Quirks, keys: Keys, a: seq<Byte>, b: seq<Byte>)
    requires Valid(m)
    ensures Run(m, quirks, keys, a + b) ==
      match Run(m, quirks, keys, a)
      case Err(f) => Err(f)
      case Ok(m') => Run(m', quirks, keys, b)
    decreases |a|
  {
    if a == [] {
      assert a + b == b;
    } else {
      assert (a + b)[0] == a[0];
      assert (a + b)[1..] == a[1..] + b;
      match Step(m, quirks, keys, a[0])
      case Err(_) =>
      case Ok(m') => RunAppend(m', quirks, keys, a[1..], b);
    }
  }

  /** Instructions per `ProcessCycle` call. */
  const CYCLE_STEPS: nat := 10

  /** `ProcessCycle`: ten fetch / execute / advance passes over the same
      machine, the loop of the interpreter's 20 ms tick. */
  method ProcessCycle(m: Machine, quirks: Quirks, keys: Keys, rnds: seq<Byte>) returns (r: Result<Machine>)
    requires Valid(m) && |rnds| == CYCLE_STEPS
    ensures r == Run(m, quirks, keys, rnds)
  {
    var cur := m;
    var k := 0;
    while k < CYCLE_STEPS
      invariant 0 <= k <= CYCLE_STEPS
      invariant Valid(cur)
      invariant Run(m, quirks, keys, rnds) == Run(cur, quirks, keys, rnds[k..])
    {
      assert rnds[k..][0] == rnds[k];
      assert rnds[k..][1..] == rnds[k + 1..];
      var s := Step(cur, quirks, keys, rnds[k]);
      if s.Err? {
        return Err(s.fault);
      }
      cur := s.value;
      k := k + 1;
    }
    assert rnds[k..] == [];
    return Ok(cur);
  }
}
