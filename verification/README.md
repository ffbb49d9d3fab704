# Chirp CHIP-8 interpreter core in Dafny

This project models the interpreter core of Chirp, a CHIP-8 emulator written
in JavaScript, and proves properties of the model.

The machine is one immutable value, `Cpu.Machine`. It holds:
- 4096 bytes of memory;
- PC, the return stack and the index register I;
- the delay and sound timers;
- the sixteen registers V0 .. VF;
- the 64 x 32 framebuffer.

Both copies of the `Emulator` class (`src/emu.js`, `emuclass.js`) share the
semantics modelled here. `src/emu.js` is the copy the line numbers refer to.
The earlier global-variable draft (`emu.js`) supplies the font table and the
branches that agree with the class.

One pass of the interpreter loop is a pure function,
`Cpu.Step(m, quirks, keys, rnd)`. It decodes the instruction held in the two
bytes at PC (`Cpu.InstrAt`, proved equal to `Decoder.Decode` of the
big-endian word `Memory.Fetch` reads), executes it (`Cpu.Execute`), and adds 2 to PC
unless the instruction cleared the advance flag. Its inputs are:
- `keys`: the sixteen held keys;
- `rnd`: the byte that `GetRandomInt(256)` would have produced.

Steps are chained as follows:
- `Cpu.Run` chains steps.
- `Cpu.ProcessCycle` is the ten-step loop of the 20 ms tick.
- `Emulator.CpuTick` skips that loop while the emulator is paused.

An instruction that would leave the JavaScript state holding `undefined`
ends in an explicit `Err` result:
- `00EE` on an empty stack;
- `Fx65` past the end of memory.

`Fx0A` as written always fails (see "## Findings"). That failure is kept only
in `Cpu.WaitKeyAsWritten`. `Cpu.Execute`, and so every step, runs the intended
`Cpu.WaitKey`.

Dxyn is modelled in two ways:
- `Display.DrawRows` / `Display.DrawBits` follow the two loops bit by bit.
- `Display.SpriteCells` lists the cells the sprite lands on, independent of
  the screen.

The lemmas connect the two. The result is the XOR statement
`Display.DrawSpriteXor`: every covered cell is inverted, every other cell is
kept, and VF says whether a lit cell was turned off.

Modules follow the program's structure:

| module | file | contents |
|---|---|---|
| `Util` | util.dfy | `ByteToBits`, `ToHex`, `ToBinary`; bitwise operators as arithmetic; `toString` / `parseInt` |
| `Display` | display.dfy | the framebuffer and the sprite draw |
| `Memory` | memory.dfy | `MemCpy` and the instruction fetch |
| `Decoder` | decode.dfy | instruction fields, the instruction type, and decode / encode round trips |
| `Cpu` | cpu.dfy | machine state, quirks, every opcode family, step / run / `ProcessCycle` |
| `Emulator` | emulator.dfy | reset state, font, boot, pause and the two ticks |
| `Properties` | properties.dfy | per-instruction properties stated against the machine |

Each `Decoder.*RoundTrip` lemma proves one constructor's case of
`Decoder.DecodeEncode`. The `Execute*`, `After*`, `Advance*` and
`StepIsAdvance` / `StepOfEffect` lemmas in `Properties` are proof steps that the listed
lemmas use. So are the field-arithmetic lemmas of `Decoder` (`SplitArith`,
`SplitConsistent`, `SplitWord`, `DecodeNn`, `DecodeNnn`, `DecodeWord`, and
similar).

## Model

| member | source | states |
|---|---|---|
| Util.ByteToBits | src/util.js:9-11 | the bit list has exactly 8 entries, each 0 or 1 |
| Util.ByteToBitsRoundTrip | src/util.js:9-11 | reading the bits back as the sum of bits[i] * 2^i gives the byte again (least significant bit first) |
| Util.BitwiseBit | src/emu.js:221-236 | each bit of `a op b` is the operator applied to bit i of a and bit i of b |
| Util.MaskIsMod | src/emu.js:130-135 | masking with 2^k - 1 is the remainder modulo 2^k, so the field masks are `%` |
| Util.OrShifted | src/emu.js:118 | `hi << k \| lo` equals hi * 2^k + lo when lo fits in k bits |
| Util.ToBase | src/util.js:2 | `toString(base)` yields at least one valid digit and no leading zero for a positive number |
| Util.ToBaseRoundTrip | src/util.js:1-7 | `parseInt` reads the `toString` of n back as n, in every base from 2 to 16 |
| Util.PadStart | src/util.js:2 | the padded string has length max(\|s\|, width), ends with s and starts with pad characters only |
| Util.ToHex | src/util.js:1-3 | at least four hexadecimal digits, and `parseInt(.., 16)` gives the number back |
| Util.ToBinary | src/util.js:5-7 | at least sixteen binary digits, and `parseInt(.., 2)` gives the number back |
| Display.Blank | def.js:3 | a 64 x 32 grid with every cell off |
| Display.Flip | src/emu.js:366-371 | exactly the one addressed cell is inverted |
| Display.RowBits | src/emu.js:352 | the reversed bit list: entry j is bit 7 - j of the row, most significant first |
| Display.RowCellsMembers | src/emu.js:354-372 | a cell is listed for a row exactly when some set, unclipped bit of that row lands on it |
| Display.SpriteCellsMembers | src/emu.js:349-373 | a cell is listed for the sprite exactly when some set, unclipped bit of some row lands on it |
| Display.RowCellsNoDup | src/emu.js:354-361 | one row never lists a cell twice: the columns of eight consecutive bits differ, even when wrapped |
| Display.SpriteCellsNoDup | src/emu.js:349-361 | a sprite of at most 32 rows never lists a cell twice |
| Display.DrawIsFlipAll | src/emu.js:349-373 | the two drawing loops flip exactly the listed cells, in list order, and record a collision the same way |
| Display.FlipAllCells | src/emu.js:366-371 | flipping a duplicate-free cell list inverts exactly the listed cells |
| Display.FlipAllCollision | src/emu.js:366-368 | the collision flag is set exactly when some listed cell was lit beforehand |
| Display.DrawSpriteXor | src/emu.js:344-375 | Dxyn XORs the covered cells into the screen, keeps all others, and reports a collision iff some cell went from on to off |
| Display.DrawTwiceRestores | src/emu.js:366-371 | drawing the same sprite at the same place twice restores the screen |
| Display.RedrawCollides | src/emu.js:366-368 | the second draw collides iff the first one lit some cell |
| Memory.MemCpy | src/emu.js:46-53 | an oversized buffer leaves memory unchanged; otherwise exactly address .. address+len-1 receive the buffer and every other cell is kept |
| Memory.CopyFrom | src/emu.js:50-52 | the per-byte write loop from index i on leaves buffer[a - address] in cells address+i .. address+len-1 and every other cell as it was |
| Memory.Fetch | src/emu.js:118 | the word is big-endian: the byte at PC times 256 plus the byte at PC + 1, an address past memory reading as 0 |
| Decoder.Split | src/emu.js:130-135 | the four nibbles recompose the word; nn and nnn are its low 8 and 12 bits |
| Decoder.AluOpOf | src/emu.js:213-313 | the n values with no 8xyn case are exactly 8-D and F |
| Decoder.AluCode | src/emu.js:213-313 | every 8xyn operation has a code that selects it |
| Decoder.EncodeDecode | src/emu.js:130-135 | decoding a word and encoding the instruction gives back the word |
| Decoder.DecodeEncode | src/emu.js:137-481 | every well-formed instruction is what its own word decodes to |
| Cpu.AddNoCarry | src/emu.js:200-207 | 7xnn: the sum modulo 256; the result is below Vx exactly when the sum overflowed |
| Cpu.AddCarry | src/emu.js:239-250 | 8xy4: sum + 256 * flag equals Vx + Vy, and the flag is 1 iff the sum exceeds 255 |
| Cpu.SubBorrow | src/emu.js:253-280 | 8xy5/8xy7: the difference modulo 256, and the flag is 1 iff the minuend is at least the subtrahend |
| Cpu.ShiftRight | src/emu.js:283-296 | 8xy6: 2 * result + flag equals the source, and the flag is bit 0 |
| Cpu.ShiftLeft | src/emu.js:299-312 | 8xyE: result + 256 * flag equals twice the source, and the flag is bit 7 |
| Cpu.ByteOp | src/emu.js:221-236 | `\|`, `&` and `^` on bytes act bit by bit |
| Cpu.ExecAlu | src/emu.js:213-313 | 8xyn changes only Vx and VF, and the logic operations leave VF alone unless x is F |
| Cpu.DecimalDigits | src/emu.js:430-434 | one to three decimal digits, no leading zero, whose decimal value is the byte |
| Cpu.DecimalDigitsAreToString | src/emu.js:431 | the digits are the characters of the byte's decimal string, read back one by one |
| Cpu.StoreLoop | src/emu.js:437-446 | Fx55 moves I on by x + 1 with the quirk and leaves it otherwise |
| Cpu.StoreLoopCells | src/emu.js:437-446 | Fx55 writes V_idx .. V_x to consecutive cells from the address iteration idx uses, and keeps every other cell |
| Cpu.LoadLoop | src/emu.js:449-459 | Fx65 fails iff a read falls past the end of memory; otherwise V_idx .. V_x receive consecutive cells, the other registers are kept, and I moves as in Fx55 |
| Cpu.LowestPressed | src/emu.js:464 | `findIndex(k => k === 1)`: none iff no key is held, else the lowest held key |
| Cpu.WaitKeyAsWritten | src/emu.js:462-471 | Fx0A as written always fails |
| Cpu.WaitKey | src/emu.js:462-471 | Fx0A as intended: it completes iff a key is held, storing the lowest held key in Vx; with no key held, nothing changes and PC stays |
| Cpu.WaitKeyAsWrittenDropsKey | src/emu.js:464 | with a key held, the as-written Fx0A fails where the intended one completes with a held key in Vx |
| Cpu.SpriteRows | src/emu.js:349-351 | Dxyn reads n rows from I on; a row past the end of memory reads as 0 |
| Cpu.ExecDraw | src/emu.js:344-375 | Dxyn changes only the screen and VF, and VF ends as 0 or 1 |
| Cpu.SkipIf | src/emu.js:166-191 | a skip changes only PC, by 2 when the condition holds |
| Cpu.Execute | src/emu.js:137-481 | an instruction fails exactly in the fault cases; the screen stays 64 x 32; only 2nnn/00EE touch the stack; only the PC-setting instructions and Fx0A suppress the advance |
| Cpu.ExecuteFlow | src/emu.js:139-163 | families 0, 1, 2 and B: only 00EE can fail; only 00E0 and 0nnn advance |
| Cpu.ExecuteSkip | src/emu.js:378-388 | families 3, 4, 5, 9 and E change nothing but PC, and PC by 0 or 2 |
| Cpu.ExecuteRegs | src/emu.js:193-375 | families 6, 7, 8, A, C and D keep PC and the stack and always advance |
| Cpu.ExecuteF | src/emu.js:391-476 | the Fx family fails only for an out-of-range Fx65, keeps the stack, and advances except for Fx0A |
| Cpu.Current | src/emu.js:118-120 | the instruction at PC is always a well-formed one |
| Cpu.InstrAtFetch | src/emu.js:118-135 | decoding the two bytes at an address gives the same instruction as decoding the fetched word |
| Decoder.DecodeBytesIsDecode | src/emu.js:130-135 | the fields read off the high and low byte are those of the word they form, so both decodings agree |
| Cpu.Step | src/emu.js:116-127 | a step fails exactly when the fetched instruction faults, and otherwise leaves a valid machine |
| Cpu.Advance | src/emu.js:122-125 | PC moves on by 2 iff the advance flag is still set; nothing else changes |
| Cpu.Run | src/emu.js:116-127 | a run of any length that succeeds leaves a valid machine |
| Cpu.RunAppend | src/emu.js:116-127 | running a prefix then the rest is running the whole sequence |
| Cpu.ProcessCycle | src/emu.js:116-127 | the ten-iteration loop computes exactly ten chained steps, stopping at the first fault |
| Emulator.Glyph | emu.js:50-67 | the glyph of digit d is the five font bytes at offset 5 * d |
| Emulator.DefaultMachine | def.js:1-11 | zeroed memory, PC 0x200, empty stack, I and timers 0, sixteen zero registers, a blank 64 x 32 screen |
| Emulator.Boot | src/emu.js:94-110 | after reset, ROM load and start: the default machine except memory; the font at 0; the ROM at 0x200 if it fits; every other cell 0 |
| Emulator.Reset | src/emu.js:94-110 | a reset unpauses, keeps the quirks and yields the boot state |
| Emulator.Pause | src/emu.js:90-92 | only the pause flag changes, and it is inverted |
| Emulator.TimerTick | src/emu.js:72-82 | only the timers change; when running, each timer above 0 drops by exactly one and a timer at 0 stays; when paused nothing changes |
| Emulator.CpuTick | src/emu.js:83-87 | a paused emulator is untouched; a running one succeeds exactly when its ten-step run does, then holds that run's machine and keeps its quirks and pause flag, and otherwise fails with the run's fault |
| Emulator.TimerTicksFloor | src/emu.js:72-82 | k running ticks lower each timer by k, floored at 0 |
| Emulator.PauseTwice | src/emu.js:90-92 | pausing twice changes nothing |
| Emulator.ResetForgets | src/emu.js:94-110 | the state after a reset depends only on the ROM and the quirks |
| Emulator.FontCharSelectsGlyph | src/emu.js:424-427 | after boot, Fx29 points I at the glyph of the low nibble of Vx |
| Properties.StepAdvances | src/emu.js:116-127 | an instruction that neither sets PC itself nor is Fx65 cannot fault, and its effect is followed by PC + 2 with nothing else changed |
| Properties.JumpSetsPc | src/emu.js:151-155 | 1nnn sets PC to nnn with no advance |
| Properties.StepFromExecute | src/emu.js:116-127 | a step executes the instruction decoded from the big-endian word `ram[pc] << 8 \| ram[pc + 1]`, then moves PC on by 2 exactly when that instruction asks for it |
| Properties.StepCall | src/emu.js:158-163 | 2nnn pushes PC + 2 and jumps to nnn |
| Properties.StepReturn | src/emu.js:143-147 | 00EE pops the top of the stack into PC |
| Properties.ReturnOnEmptyStackFaults | src/emu.js:144 | 00EE on an empty stack is a fault |
| Properties.CallThenReturn | src/emu.js:139-163 | a call followed by a return restores the stack and leaves PC at the call site + 2 |
| Properties.SkipsAdvance | src/emu.js:166-191 | 3xnn, 4xnn, 5xy0 and 9xy0 move PC by 4 when their condition holds and by 2 otherwise, changing nothing else |
| Properties.KeySkips | src/emu.js:378-388 | Ex9E skips iff Vx < 16 and that key is held; ExA1 skips iff Vx < 16 and that key is not held |
| Properties.JumpWithOffset | src/emu.js:324-335 | Bnnn jumps to nnn + V0 with the legacy quirk and to x + nn + Vx without it |
| Properties.SetImmediate | src/emu.js:194-197 | 6xnn sets Vx to nn and changes nothing else |
| Properties.AddImmediate | src/emu.js:200-207 | 7xnn sets Vx to (Vx + nn) mod 256 and leaves every other register, VF included, alone |
| Properties.SetThenAdd | src/emu.js:194-207 | 6xnn then 7xmm leaves (nn + mm) mod 256 in Vx |
| Properties.LogicOps | src/emu.js:215-236 | 8xy0-8xy3 set Vx to Vy, or to Vx op Vy bit by bit, and change nothing else |
| Properties.AddWithCarry | src/emu.js:239-250 | 8xy4: Vx is the sum mod 256 and VF the carry, which wins for x = F |
| Properties.SubtractWithBorrow | src/emu.js:253-280 | 8xy5/8xy7: the difference mod 256 and VF = 1 iff there was no borrow |
| Properties.Shifts | src/emu.js:283-312 | 8xy6/8xyE shift Vy with the quirk and Vx without it; VF receives the bit shifted out |
| Properties.RandomMasked | src/emu.js:338-341 | Cxnn has no bit outside nn, is 0 for nn = 0, and changes only Vx |
| Properties.AddToIndex | src/emu.js:413-421 | Fx1E adds Vx to I, subtracting 4096 and setting VF once I passes 4095; VF is kept otherwise |
| Properties.BcdDigits | src/emu.js:430-434 | Fx33 writes Vx's decimal digits at I if they fit, and nothing else |
| Properties.StoreRegisters | src/emu.js:437-446 | Fx55 writes V0 .. Vx from I (I + 1 with the quirk) on, keeps every other cell, and moves I only with the quirk |
| Properties.StoreThenLoad | src/emu.js:437-459 | Fx55, then any new register contents, then Fx65 from the same I: V0 .. Vx get back their stored values, V(x+1) .. VF keep the new ones, and I ends where Fx55 left it |
| Properties.ClearScreen | emuclass.js:208-210 | 00E0 turns every pixel off and changes nothing else |
| Properties.DrawFlipsCovered | src/emu.js:344-375 | Dxyn inverts exactly the covered pixels; VF = 1 iff some pixel went from on to off; only the screen and VF change |
| Properties.DrawTwice | src/emu.js:344-375 | drawing the same sprite twice restores the screen, when neither coordinate register is VF |

## Left out

- Canvas rendering (`DrawPixels`, canvas sizing): presentation only. The model keeps the logical grid.
- ROM acquisition (`fetch`, `FileReader`): the ROM is a byte sequence given to `Emulator.Boot`.
- `setInterval` / `clearInterval` and their 13.3 ms and 20 ms periods: the two ticks are separate functions the caller invokes.
- Keyboard DOM events and the 20 ms release delay: the keys are a 16-entry input. They are held fixed during one ten-step cycle, since no event can run inside it.
- `GetRandomInt`: it uses floating-point `Math.random`. The random byte is a parameter of each step instead.
- UI glue: `ChangeROMLink`, `LogInstructions`, the logger, the pause-button text, and the `ChangeROM` / `Step` calls of `src/index.js`, which the class does not define.
- The divergent branches of the `emu.js` draft:
  - 7xnn tests `> 256`;
  - the 8xy5 and 8xy7 flags are read after the subtraction;
  - the shift flags are read after the shift;
  - the undefined `options` object in Bnnn;
  - the `> 64` / `> 32` draw bounds;
  - timers fused with the cycle loop.

  The model follows the class copies.
- Cpu.Execute: where the interpreter would carry on with `undefined`, the model stops with an `Err`. This covers PC after `00EE` on an empty stack, and a register after `Fx65` past the end of memory. What the interpreter does next with that value is not modelled.
- Cpu.Execute: Fx0A runs the intended `Cpu.WaitKey`, not the as-written code at src/emu.js:464, which throws on the unbound `keyboard`. The as-written behaviour is `Cpu.WaitKeyAsWritten`, which no step uses, so no step ends in `UnboundKeyboard`.
- Memory.ReadOr0: a fetch or sprite-row read past the end of memory yields `undefined`, which `<<`, `|` and `>>` turn into 0. The model returns 0 directly.
- Util.ToHex: modelled for non-negative integers only, which is all the interpreter passes to it. Util.ToBinary likewise.
- Display.SpriteCellsNoDup: requires at most 32 rows. A Dxyn sprite has at most 15, so this costs nothing.
- Display.DrawSpriteXor: requires at most 32 rows for the same reason. Display.DrawTwiceRestores and Display.RedrawCollides inherit it.
- Properties.StoreThenLoad: requires the whole block to lie inside memory. Past the end, Fx55 writes are refused one by one and Fx65 faults.
- Properties.DrawTwice: requires that neither coordinate register is VF. The first draw overwrites VF, so the second draw would land elsewhere.

## Findings

| source | as written | input that shows it | evidently intended | confidence | as-written member | corrected member |
|---|---|---|---|---|---|---|
| src/emu.js:464 | Fx0A reads `keyboard.keys`, but no `keyboard` is bound in the method or the module; the keyboard is `this.keyboard`. The instruction throws a ReferenceError. `emuclass.js:533` has the same free name. | any word Fx0A, with or without a key held | Vx receives the lowest held key and PC moves on; with no key held, the instruction runs again | not executed | Cpu.WaitKeyAsWritten (Cpu.WaitKeyAsWrittenDropsKey exhibits the lost key) | Cpu.WaitKey |
