/** The emulator around the CPU: the reset state, the font, loading a ROM,
    pausing, and the two periodic ticks (timers, and ten instructions). */
module Emulator {
  import opened Util
  import opened Display
  import opened Memory
  import opened Decoder
  import opened Cpu

  /** The built-in hexadecimal font: sixteen glyphs of five rows each, the
      glyph of digit d at offset 5 * d. */
  const FONT: seq<Byte> := [
    0xF0, 0x90, 0x90, 0x90, 0xF0, // 0
    0x20, 0x60, 0x20, 0x20, 0x70, // 1
    0xF0, 0x10, 0xF0, 0x80, 0xF0, // 2
    0xF0, 0x10, 0xF0, 0x10, 0xF0, // 3
    0x90, 0x90, 0xF0, 0x10, 0x10, // 4
    0xF0, 0x80, 0xF0, 0x10, 0xF0, // 5
    0xF0, 0x80, 0xF0, 0x90, 0xF0, // 6
    0xF0, 0x10, 0x20, 0x40, 0x40, // 7
    0xF0, 0x90, 0xF0, 0x90, 0xF0, // 8
    0xF0, 0x90, 0xF0, 0x10, 0xF0, // 9
    0xF0, 0x90, 0xF0, 0x90, 0x90, // A
    0xE0, 0x90, 0xE0, 0x90, 0xE0, // B
    0xF0, 0x80, 0x80, 0x80, 0xF0, // C
    0xE0, 0x90, 0x90, 0x90, 0xE0, // D
    0xF0, 0x80, 0xF0, 0x80, 0xF0, // E
    0xF0, 0x80, 0xF0, 0x80, 0x80  // F
  ]

  const GLYPH_ROWS: nat := 5

  /** The five rows of the glyph of hexadecimal digit d. */
  function Glyph(d: Nibble): (rows: seq<Byte>)
    ensures |rows| == GLYPH_ROWS
    ensures forall r :: 0 <= r < GLYPH_ROWS ==> rows[r] == FONT[GLYPH_ROWS * d + r]
  {
    FONT[GLYPH_ROWS * d .. GLYPH_ROWS * d + GLYPH_ROWS]
  }

  /** Where programs are loaded and where execution starts. */
  const PROGRAM_START: nat := 0x200

  /** The `EmuDefault` getters: zeroed memory, PC at 0x200, an empty stack,
      I and both timers 0, sixteen zero registers, a blank 64 x 32 screen.
      Each getter builds a fresh value, so no state survives into it. */
  function DefaultMachine(): (m: Machine)
    ensures Valid(m)
    ensures forall a :: 0 <= a < RAM_SIZE ==> m.ram[a] == 0
    ensures m.pc == PROGRAM_START && m.stack == [] && m.i == 0
    ensures m.delay == 0 && m.sound == 0
    ensures forall k :: 0 <= k < 16 ==> m.v[k] == 0
    ensures forall x, y :: 0 <= x < WIDTH && 0 <= y < HEIGHT ==> !m.screen[x][y]
  {
    Machine(seq(RAM_SIZE, _ => 0), PROGRAM_START, [], 0, 0, 0, seq(16, _ => 0), Blank())
  }

  /** The emulator object: the machine, the quirk switches and the pause
      flag. */
  datatype Emulator = Emulator(m: Machine, quirks: Quirks, paused: bool)

  /** `Reset`, `LoadROM` and `Start` in sequence: the default machine, the
      ROM copied to 0x200 (refused as a whole if it does not fit), then the
      font copied to 0. Not paused. */
  function Boot(rom: seq<Byte>, quirks: Quirks): (e: Emulator)
    ensures Valid(e.m) && !e.paused && e.quirks == quirks
    ensures e.m == DefaultMachine().(ram := e.m.ram)
    ensures forall a :: 0 <= a < |FONT| ==> e.m.ram[a] == FONT[a]
    ensures |rom| <= RAM_SIZE - PROGRAM_START ==>
      forall k :: 0 <= k < |rom| ==> e.m.ram[PROGRAM_START + k] == rom[k]
    ensures forall a :: |FONT| <= a < RAM_SIZE ==>
      (e.m.ram[a] != 0 ==> PROGRAM_START <= a < PROGRAM_START + |rom| <= RAM_SIZE)
  {
    BootFont(rom);
    BootRom(rom);
    BootRest(rom);
    Emulator(DefaultMachine().(ram := BootRam(rom)), quirks, false)
  }

  /** Memory after boot: the ROM copied to 0x200 into zeroed memory, then
      the font copied to 0. */
  function BootRam(rom: seq<Byte>): Ram
  {
    MemCpy(MemCpy(DefaultMachine().ram, PROGRAM_START, rom), 0, FONT)
  }

  lemma BootFont(rom: seq<Byte>)
    ensures forall a :: 0 <= a < |FONT| ==> BootRam(rom)[a] == FONT[a]
  {
  }

  lemma BootRom(rom: seq<Byte>)
    ensures |rom| <= RAM_SIZE - PROGRAM_START ==>
      forall k :: 0 <= k < |rom| ==> BootRam(rom)[PROGRAM_START + k] == rom[k]
  {
  }

  lemma BootRest(rom: seq<Byte>)
    ensures forall a :: |FONT| <= a < RAM_SIZE ==>
      (BootRam(rom)[a] != 0 ==> PROGRAM_START <= a < PROGRAM_START + |rom| <= RAM_SIZE)
  {
  }

  /** `Reset`: everything but the quirks goes back to the boot state for the
      current ROM, and a paused emulator is resumed. */
  function Reset(e: Emulator, rom: seq<Byte>): (r: Emulator)
    ensures !r.paused && r.quirks == e.quirks
    ensures r == Boot(rom, e.quirks)
  {
    var unpaused := if e.paused then Pause(e) else e;
    Boot(rom, unpaused.quirks)
  }

  /** `Pause`: toggles the pause flag and nothing else. */
  function Pause(e: Emulator): (r: Emulator)
    ensures r.paused != e.paused
    ensures r.m == e.m && r.quirks == e.quirks
  {
    e.(paused := !e.paused)
  }

  /** The 13.3 ms timer tick: when not paused, each timer above zero goes
      down by one; nothing else changes and a timer never goes below 0. */
  function TimerTick(e: Emulator): (r: Emulator)
    ensures r == e.(m := e.m.(delay := r.m.delay, sound := r.m.sound))
    ensures r.m.delay <= e.m.delay && r.m.sound <= e.m.sound
    ensures r.m.delay == e.m.delay <==> e.paused || e.m.delay == 0
    ensures r.m.sound == e.m.sound <==> e.paused || e.m.sound == 0
    ensures e.m.delay - r.m.delay <= 1 && e.m.sound - r.m.sound <= 1
  {
    if e.paused then e
    else
      var delay := if e.m.delay > 0 then e.m.delay - 1 else e.m.delay;
      var sound := if e.m.sound > 0 then e.m.sound - 1 else e.m.sound;
      e.(m := e.m.(delay := delay, sound := sound))
  }

  /** The 20 ms CPU tick: when not paused, one `ProcessCycle`, ten
      instructions with one random byte each. */
  function CpuTick(e: Emulator, keys: Keys, rnds: seq<Byte>): (r: Result<Emulator>)
    requires Valid(e.m) && |rnds| == CYCLE_STEPS
    ensures e.paused ==> r == Ok(e)
    ensures r.Ok? ==> Valid(r.value.m) && r.value.quirks == e.quirks && r.value.paused == e.paused
    ensures !e.paused ==> (r.Ok? <==> Run(e.m, e.quirks, keys, rnds).Ok?)
    ensures !e.paused && r.Ok? ==> r.value == e.(m := Run(e.m, e.quirks, keys, rnds).value)
    ensures !e.paused && r.Err? ==> r.fault == Run(e.m, e.quirks, keys, rnds).fault
  {
    if e.paused then Ok(e)
    else
      match Run(e.m, e.quirks, keys, rnds)
      case Err(f) => Err(f)
      case Ok(m) => Ok(e.(m := m))
  }

  /** k timer ticks in a row. */
  function TimerTicks(e: Emulator, k: nat): Emulator
  {
    if k == 0 then e else TimerTick(TimerTicks(e, k - 1))
  }

  /** After k ticks of a running emulator each timer has gone down by k,
      floored at 0; a paused emulator keeps both. */
  lemma {:induction false} TimerTicksFloor(e: Emulator, k: nat)
    ensures var r := TimerTicks(e, k);
      && r.m.delay == (if e.paused then e.m.delay else if e.m.delay >= k then e.m.delay - k else 0)
      && r.m.sound == (if e.paused then e.m.sound else if e.m.sound >= k then e.m.sound - k else 0)
      && r == e.(m := e.m.(delay := r.m.delay, sound := r.m.sound))
  {
    if k > 0 {
      TimerTicksFloor(e, k - 1);
    }
  }

  /** Pausing twice is no change at all. */
  lemma PauseTwice(e: Emulator)
    ensures Pause(Pause(e)) == e
  {
  }

  /** The state after a reset does not depend on the state before it, only
      on the ROM and the quirks. */
  lemma ResetForgets(e1: Emulator, e2: Emulator, rom: seq<Byte>)
    requires e1.quirks == e2.quirks
    ensures Reset(e1, rom) == Reset(e2, rom)
  {
  }

  /** After boot, Fx29 points I at the glyph of the low nibble of Vx: a
      five-row sprite drawn from there is that glyph. */
  lemma FontCharSelectsGlyph(rom: seq<Byte>, quirks: Quirks, keys: Keys, rnd: Byte, m: Machine, x: Nibble)
    requires Valid(m) && m.ram == Boot(rom, quirks).m.ram
    ensures var r := Execute(m, quirks, keys, rnd, FontChar(x));
      r.Ok? && SpriteRows(r.value.m.ram, r.value.m.i, GLYPH_ROWS) == Glyph(m.v[x] % 16)
  {
    FontCharReadsFont(m, quirks, keys, rnd, x);
  }

  /** The same, for any memory that holds the font at address 0. */
  lemma FontCharReadsFont(m: Machine, quirks: Quirks, keys: Keys, rnd: Byte, x: Nibble)
    requires Valid(m) && forall a :: 0 <= a < |FONT| ==> m.ram[a] == FONT[a]
    ensures var r := Execute(m, quirks, keys, rnd, FontChar(x));
      r.Ok? && SpriteRows(r.value.m.ram, r.value.m.i, GLYPH_ROWS) == Glyph(m.v[x] % 16)
  {
    var r := Execute(m, quirks, keys, rnd, FontChar(x));
    var d: Nibble := m.v[x] % 16;
    var rows := SpriteRows(r.value.m.ram, r.value.m.i, GLYPH_ROWS);
    assert r.value.m.i == GLYPH_ROWS * d;
    forall k | 0 <= k < GLYPH_ROWS
      ensures rows[k] == Glyph(d)[k]
    {
      assert GLYPH_ROWS * d + k < |FONT|;
    }
  }
}
