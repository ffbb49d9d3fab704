/** Instruction decoding: the six fields of a 16-bit word, and the
    instruction each opcode family selects. */
module Decoder {
  import opened Util

  /** A nibble: one hexadecimal digit of an instruction word. */
  type Nibble = n: nat | n < 16

  /** `(w & 0xF000) >> 12`, `(w & 0x0F00) >> 8`, `(w & 0x00F0) >> 4`,
      `w & 0x000F`, `w & 0x00FF` and `w & 0x0FFF`. Masking with 2^k - 1 is a
      remainder modulo 2^k (`Util.MaskIsMod`) and a right shift by k divides
      by 2^k, so each field is written with `/` and `%`. */
  datatype Fields = Fields(opcode: Nibble, x: Nibble, y: Nibble, n: Nibble, nn: nat, nnn: nat)

  /** The four nibbles recompose the word, and nn / nnn are its low byte and
      low twelve bits, made of the same nibbles. */
  function Split(w: nat): (f: Fields)
    requires w < 0x10000
    ensures w == f.opcode * 4096 + f.x * 256 + f.y * 16 + f.n
    ensures f.nn == f.y * 16 + f.n && f.nn < 256
    ensures f.nnn == f.x * 256 + f.nn && f.nnn < 4096
  {
    SplitArith(w);
    Fields(w / 4096, (w / 256) % 16, (w / 16) % 16, w % 16, w % 256, w % 4096)
  }

  /** The field arithmetic, one nibble at a time: w = 16 q1 + n,
      q1 = 16 q2 + y, q2 = 16 op + x. */
  lemma SplitArith(w: nat)
    requires w < 0x10000
    ensures w / 4096 < 16
    ensures w % 256 == ((w / 16) % 16) * 16 + w % 16
    ensures w % 4096 == ((w / 256) % 16) * 256 + w % 256
    ensures w == (w / 4096) * 4096 + w % 4096
  {
    var q1, n := w / 16, w % 16;
    var q2, y := q1 / 16, q1 % 16;
    var op, x := q2 / 16, q2 % 16;
    DivModUnique(w, 256, q2, y * 16 + n);
    DivModUnique(w, 4096, op, x * 256 + y * 16 + n);
  }

  /** The register-to-register operations of the 8xyn family, by n. */
  datatype AluOp =
    | Mov   // 8xy0
    | Or    // 8xy1
    | And   // 8xy2
    | Xor   // 8xy3
    | Add   // 8xy4
    | Sub   // 8xy5
    | Shr   // 8xy6
    | SubN  // 8xy7
    | Shl   // 8xyE

  datatype Option<T> = None | Some(value: T)

  /** n selects an 8xyn operation; the other seven values fall through the
      inner switch and do nothing. */
  function AluOpOf(n: Nibble): (r: Option<AluOp>)
    ensures r.None? <==> n in {8, 9, 10, 11, 12, 13, 15}
  {
    match n
    case 0 => Some(Mov)
    case 1 => Some(Or)
    case 2 => Some(And)
    case 3 => Some(Xor)
    case 4 => Some(Add)
    case 5 => Some(Sub)
    case 6 => Some(Shr)
    case 7 => Some(SubN)
    case 14 => Some(Shl)
    case _ => None
  }

  function AluCode(op: AluOp): (n: Nibble)
    ensures AluOpOf(n) == Some(op)
  {
    match op
    case Mov => 0
    case Or => 1
    case And => 2
    case Xor => 3
    case Add => 4
    case Sub => 5
    case Shr => 6
    case SubN => 7
    case Shl => 14
  }

  /** One decoded instruction. Every field the interpreter ignores is kept
      (`x` of 00E0, `n` of 5xy0, the unused n of an 8xyn, ...), so that a
      word can be rebuilt from its instruction. */
  datatype Instr =
    | Cls(x: Nibble)                        // 0xE0: nn == 0xE0
    | Ret(x: Nibble)                        // 0xEE: nn == 0xEE
    | Sys(nnn: nat)                         // other 0nnn: ignored
    | Jump(nnn: nat)                        // 1nnn
    | Call(nnn: nat)                        // 2nnn
    | SkipEqImm(x: Nibble, nn: nat)         // 3xnn
    | SkipNeImm(x: Nibble, nn: nat)         // 4xnn
    | SkipEqReg(x: Nibble, y: Nibble, n: Nibble)  // 5xy?
    | SetImm(x: Nibble, nn: nat)            // 6xnn
    | AddImm(x: Nibble, nn: nat)            // 7xnn
    | Alu(op: AluOp, x: Nibble, y: Nibble)  // 8xyn, n assigned
    | AluNone(x: Nibble, y: Nibble, n: Nibble)  // 8xyn, n unassigned
    | SkipNeReg(x: Nibble, y: Nibble, n: Nibble)  // 9xy?
    | SetIndex(nnn: nat)                    // Annn
    | JumpOffset(x: Nibble, nn: nat)        // Bnnn: nnn is x then nn
    | Rand(x: Nibble, nn: nat)              // Cxnn
    | Draw(x: Nibble, y: Nibble, n: Nibble) // Dxyn
    | SkipKey(x: Nibble)                    // Ex9E
    | SkipNoKey(x: Nibble)                  // ExA1
    | KeyNone(x: Nibble, nn: nat)           // other Exnn: ignored
    | GetDelay(x: Nibble)                   // Fx07
    | WaitKey(x: Nibble)                    // Fx0A
    | SetDelay(x: Nibble)                   // Fx15
    | SetSound(x: Nibble)                   // Fx18
    | AddIndex(x: Nibble)                   // Fx1E
    | FontChar(x: Nibble)                   // Fx29
    | Bcd(x: Nibble)                        // Fx33
    | Store(x: Nibble)                      // Fx55
    | Load(x: Nibble)                       // Fx65
    | FNone(x: Nibble, nn: nat)             // other Fxnn: ignored

  /** The case analysis of `ProcessInstruction`: the opcode nibble picks the
      family, then nn (families 0, E, F) or n (family 8) picks the member. */
  function DecodeFields(f: Fields): Instr
  {
    match f.opcode
    case 0x0 =>
      if f.nn == 0xE0 then Cls(f.x)
      else if f.nn == 0xEE then Ret(f.x)
      else Sys(f.nnn)
    case 0x1 => Jump(f.nnn)
    case 0x2 => Call(f.nnn)
    case 0x3 => SkipEqImm(f.x, f.nn)
    case 0x4 => SkipNeImm(f.x, f.nn)
    case 0x5 => SkipEqReg(f.x, f.y, f.n)
    case 0x6 => SetImm(f.x, f.nn)
    case 0x7 => AddImm(f.x, f.nn)
    case 0x8 =>
      (match AluOpOf(f.n)
       case Some(op) => Alu(op, f.x, f.y)
       case None => AluNone(f.x, f.y, f.n))
    case 0x9 => SkipNeReg(f.x, f.y, f.n)
    case 0xA => SetIndex(f.nnn)
    case 0xB => JumpOffset(f.x, f.nn)
    case 0xC => Rand(f.x, f.nn)
    case 0xD => Draw(f.x, f.y, f.n)
    case 0xE =>
      if f.nn == 0x9E then SkipKey(f.x)
      else if f.nn == 0xA1 then SkipNoKey(f.x)
      else KeyNone(f.x, f.nn)
    case 0xF =>
      if f.nn == 0x07 then GetDelay(f.x)
      else if f.nn == 0x0A then WaitKey(f.x)
      else if f.nn == 0x15 then SetDelay(f.x)
      else if f.nn == 0x18 then SetSound(f.x)
      else if f.nn == 0x1E then AddIndex(f.x)
      else if f.nn == 0x29 then FontChar(f.x)
      else if f.nn == 0x33 then Bcd(f.x)
      else if f.nn == 0x55 then Store(f.x)
      else if f.nn == 0x65 then Load(f.x)
      else FNone(f.x, f.nn)
  }

  function Decode(w: nat): (ins: Instr)
    requires w < 0x10000
    ensures WellFormed(ins)
  {
    SplitConsistent(w);
    DecodeFieldsWellFormed(Split(w));
    DecodeFields(Split(w))
  }

  /** Fields related the way the split of one word relates them. */
  predicate Consistent(f: Fields)
  {
    f.nn == f.y * 16 + f.n && f.nnn == f.x * 256 + f.nn && f.nnn % 256 == f.nn
  }

  lemma SplitConsistent(w: nat)
    requires w < 0x10000
    ensures Consistent(Split(w))
  {
    var f := Split(w);
    DivModUnique(f.nnn, 256, f.x, f.nn);
  }

  lemma DecodeFieldsWellFormed(f: Fields)
    requires Consistent(f)
    ensures WellFormed(DecodeFields(f))
  {
  }

  /** The fields read off the two bytes of the word: the high byte holds
      the opcode and x, the low byte y and n (and is nn). */
  function BytesFields(hi: Byte, lo: Byte): Fields
  {
    Fields(hi / 16, hi % 16, lo / 16, lo % 16, lo, (hi % 16) * 256 + lo)
  }

  /** The same case analysis applied to the two bytes of the word. */
  function DecodeBytes(hi: Byte, lo: Byte): (ins: Instr)
    ensures WellFormed(ins)
  {
    DecodeBytesIsDecode(hi, lo, hi * 256 + lo);
    DecodeFields(BytesFields(hi, lo))
  }

  /** Reading the fields off the bytes agrees with masking the word. */
  lemma SplitBytes(hi: Byte, lo: Byte, w: nat)
    requires w == hi * 256 + lo
    ensures w < 0x10000 && Split(w) == BytesFields(hi, lo)
  {
    DivModUnique(w, 4096, hi / 16, (hi % 16) * 256 + lo);
    DivModUnique(w, 256, hi, lo);
    DivModUnique(w, 16, hi * 16 + lo / 16, lo % 16);
    DivModUnique(hi * 16 + lo / 16, 16, hi, lo / 16);
  }

  lemma DecodeBytesIsDecode(hi: Byte, lo: Byte, w: nat)
    requires w == hi * 256 + lo
    ensures w < 0x10000 && DecodeFields(BytesFields(hi, lo)) == Decode(w)
  {
    SplitBytes(hi, lo, w);
  }

  /** The nn values Fxnn gives a meaning to. */
  predicate IsFCode(nn: nat)
  {
    || nn == 0x07 || nn == 0x0A || nn == 0x15 || nn == 0x18 || nn == 0x1E
    || nn == 0x29 || nn == 0x33 || nn == 0x55 || nn == 0x65
  }

  /** An instruction some word decodes to: fields in range, and the
      catch-all constructors only for the codes no other member claims. */
  predicate WellFormed(ins: Instr)
  {
    match ins
    case Sys(nnn) => nnn < 4096 && nnn % 256 != 0xE0 && nnn % 256 != 0xEE
    case Jump(nnn) => nnn < 4096
    case Call(nnn) => nnn < 4096
    case SkipEqImm(_, nn) => nn < 256
    case SkipNeImm(_, nn) => nn < 256
    case SetImm(_, nn) => nn < 256
    case AddImm(_, nn) => nn < 256
    case AluNone(_, _, n) => AluOpOf(n).None?
    case SetIndex(nnn) => nnn < 4096
    case JumpOffset(_, nn) => nn < 256
    case Rand(_, nn) => nn < 256
    case KeyNone(_, nn) => nn < 256 && nn != 0x9E && nn != 0xA1
    case FNone(_, nn) => nn < 256 && !IsFCode(nn)
    case _ => true
  }

  function Word(opcode: Nibble, x: Nibble, y: Nibble, n: Nibble): (w: nat)
    ensures w < 0x10000
  {
    opcode * 4096 + x * 256 + y * 16 + n
  }

  /** The high and low nibble of a byte. */
  function Hi(nn: nat): Nibble
    requires nn < 256
  {
    nn / 16
  }

  function Lo(nn: nat): Nibble
  {
    nn % 16
  }

  /** The word with opcode `op` and low twelve bits `nnn`. */
  function WordNnn(op: Nibble, nnn: nat): (w: nat)
    requires nnn < 4096
    ensures w == op * 4096 + nnn
  {
    Word(op, nnn / 256, (nnn / 16) % 16, nnn % 16)
  }

  /** The word with opcode `op`, register `x` and low byte `nn`. */
  function WordNn(op: Nibble, x: Nibble, nn: nat): (w: nat)
    requires nn < 256
    ensures w == op * 4096 + x * 256 + nn
  {
    Word(op, x, Hi(nn), Lo(nn))
  }

  /** The word an instruction is written as. */
  function Encode(ins: Instr): (w: nat)
    requires WellFormed(ins)
    ensures w < 0x10000
  {
    match ins
    case Cls(x) => Word(0x0, x, 0xE, 0x0)
    case Ret(x) => Word(0x0, x, 0xE, 0xE)
    case Sys(nnn) => WordNnn(0x0, nnn)
    case Jump(nnn) => WordNnn(0x1, nnn)
    case Call(nnn) => WordNnn(0x2, nnn)
    case SkipEqImm(x, nn) => WordNn(0x3, x, nn)
    case SkipNeImm(x, nn) => WordNn(0x4, x, nn)
    case SkipEqReg(x, y, n) => Word(0x5, x, y, n)
    case SetImm(x, nn) => WordNn(0x6, x, nn)
    case AddImm(x, nn) => WordNn(0x7, x, nn)
    case Alu(op, x, y) => Word(0x8, x, y, AluCode(op))
    case AluNone(x, y, n) => Word(0x8, x, y, n)
    case SkipNeReg(x, y, n) => Word(0x9, x, y, n)
    case SetIndex(nnn) => WordNnn(0xA, nnn)
    case JumpOffset(x, nn) => WordNn(0xB, x, nn)
    case Rand(x, nn) => WordNn(0xC, x, nn)
    case Draw(x, y, n) => Word(0xD, x, y, n)
    case SkipKey(x) => WordNn(0xE, x, 0x9E)
    case SkipNoKey(x) => WordNn(0xE, x, 0xA1)
    case KeyNone(x, nn) => WordNn(0xE, x, nn)
    case GetDelay(x) => WordNn(0xF, x, 0x07)
    case WaitKey(x) => WordNn(0xF, x, 0x0A)
    case SetDelay(x) => WordNn(0xF, x, 0x15)
    case SetSound(x) => WordNn(0xF, x, 0x18)
    case AddIndex(x) => WordNn(0xF, x, 0x1E)
    case FontChar(x) => WordNn(0xF, x, 0x29)
    case Bcd(x) => WordNn(0xF, x, 0x33)
    case Store(x) => WordNn(0xF, x, 0x55)
    case Load(x) => WordNn(0xF, x, 0x65)
    case FNone(x, nn) => WordNn(0xF, x, nn)
  }

  /** Splitting a word built from four nibbles gives the nibbles back. */
  lemma SplitWord(a: Nibble, b: Nibble, c: Nibble, d: Nibble)
    ensures Split(Word(a, b, c, d)) == Fields(a, b, c, d, c * 16 + d, b * 256 + c * 16 + d)
  {
    var w := Word(a, b, c, d);
    DivModUnique(w, 4096, a, b * 256 + c * 16 + d);
    DivModUnique(w, 256, a * 16 + b, c * 16 + d);
    DivModUnique(a * 16 + b, 16, a, b);
    DivModUnique(w, 16, a * 256 + b * 16 + c, d);
    DivModUnique(a * 256 + b * 16 + c, 16, a * 16 + b, c);
  }

  /** A byte is its high nibble times 16 plus its low nibble, and the twelve
      low bits are three nibbles. */
  lemma NibblesOf(nn: nat, nnn: nat)
    requires nn < 256 && nnn < 4096
    ensures nn == Hi(nn) * 16 + Lo(nn)
    ensures nnn == (nnn / 256) * 256 + ((nnn / 16) % 16) * 16 + nnn % 16
  {
    DivModUnique(nnn, 16, nnn / 16, nnn % 16);
    DivModUnique(nnn / 16, 16, nnn / 256, (nnn / 16) % 16);
  }

  /** Decoding then encoding gives back the word: no bit of the word is lost. */
  lemma EncodeDecode(w: nat)
    requires w < 0x10000
    ensures WellFormed(Decode(w)) && Encode(Decode(w)) == w
  {
    var op := Split(w).opcode;
    if op < 0x8 {
      EncodeDecodeLow(w);
    } else if op == 0x8 {
      EncodeDecodeAlu(w);
    } else if op < 0xE {
      EncodeDecodeMid(w);
    } else if op == 0xE {
      EncodeDecodeKeys(w);
    } else {
      EncodeDecodeF(w);
    }
  }

  /** The words an instruction is built back from agree with the word split. */
  lemma SplitFacts(w: nat)
    requires w < 0x10000
    ensures var f := Split(w);
      && w == Word(f.opcode, f.x, f.y, f.n)
      && w == WordNn(f.opcode, f.x, f.nn)
      && w == WordNnn(f.opcode, f.nnn)
      && f.nnn % 256 == f.nn
  {
    SplitConsistent(w);
  }

  lemma EncodeDecodeLow(w: nat)
    requires w < 0x10000 && Split(w).opcode < 0x8
    ensures WellFormed(Decode(w)) && Encode(Decode(w)) == w
  {
    SplitFacts(w);
  }

  lemma EncodeDecodeAlu(w: nat)
    requires w < 0x10000 && Split(w).opcode == 0x8
    ensures WellFormed(Decode(w)) && Encode(Decode(w)) == w
  {
    var f := Split(w);
    SplitFacts(w);
    if AluOpOf(f.n).Some? {
      assert AluCode(AluOpOf(f.n).value) == f.n;
    }
  }

  lemma EncodeDecodeMid(w: nat)
    requires w < 0x10000 && 0x8 < Split(w).opcode < 0xE
    ensures WellFormed(Decode(w)) && Encode(Decode(w)) == w
  {
    SplitFacts(w);
  }

  lemma EncodeDecodeKeys(w: nat)
    requires w < 0x10000 && Split(w).opcode == 0xE
    ensures WellFormed(Decode(w)) && Encode(Decode(w)) == w
  {
    SplitFacts(w);
  }

  lemma EncodeDecodeF(w: nat)
    requires w < 0x10000 && Split(w).opcode == 0xF
    ensures WellFormed(Decode(w)) && Encode(Decode(w)) == w
  {
    SplitFacts(w);
    EncodeDecodeFFields(Split(w));
  }

  /** Every Fxnn member encodes back to opcode F, the same x and the same nn. */
  lemma EncodeDecodeFFields(f: Fields)
    requires Consistent(f) && f.opcode == 0xF
    ensures WellFormed(DecodeFields(f)) && Encode(DecodeFields(f)) == WordNn(0xF, f.x, f.nn)
  {
    DecodeFieldsWellFormed(f);
    var x := f.x;
    if f.nn == 0x07 { assert DecodeFields(f) == GetDelay(x); }
    else if f.nn == 0x0A { assert DecodeFields(f) == WaitKey(x); }
    else if f.nn == 0x15 { assert DecodeFields(f) == SetDelay(x); }
    else if f.nn == 0x18 { assert DecodeFields(f) == SetSound(x); }
    else if f.nn == 0x1E { assert DecodeFields(f) == AddIndex(x); }
    else if f.nn == 0x29 { assert DecodeFields(f) == FontChar(x); }
    else if f.nn == 0x33 { assert DecodeFields(f) == Bcd(x); }
    else if f.nn == 0x55 { assert DecodeFields(f) == Store(x); }
    else if f.nn == 0x65 { assert DecodeFields(f) == Load(x); }
    else { assert DecodeFields(f) == FNone(x, f.nn); }
  }

  /** Encoding then decoding gives back the instruction. One lemma per
      constructor below keeps each proof to a single word. */
  lemma DecodeEncode(ins: Instr)
    requires WellFormed(ins)
    ensures Decode(Encode(ins)) == ins
  {
    match ins
    case Cls(x) => ClsRoundTrip(x);
    case Ret(x) => RetRoundTrip(x);
    case Sys(nnn) => SysRoundTrip(nnn);
    case Jump(nnn) => JumpRoundTrip(nnn);
    case Call(nnn) => CallRoundTrip(nnn);
    case SkipEqImm(x, nn) => SkipEqImmRoundTrip(x, nn);
    case SkipNeImm(x, nn) => SkipNeImmRoundTrip(x, nn);
    case SkipEqReg(x, y, n) => SkipEqRegRoundTrip(x, y, n);
    case SetImm(x, nn) => SetImmRoundTrip(x, nn);
    case AddImm(x, nn) => AddImmRoundTrip(x, nn);
    case Alu(op, x, y) => AluRoundTrip(op, x, y);
    case AluNone(x, y, n) => AluNoneRoundTrip(x, y, n);
    case SkipNeReg(x, y, n) => SkipNeRegRoundTrip(x, y, n);
    case SetIndex(nnn) => SetIndexRoundTrip(nnn);
    case JumpOffset(x, nn) => JumpOffsetRoundTrip(x, nn);
    case Rand(x, nn) => RandRoundTrip(x, nn);
    case Draw(x, y, n) => DrawRoundTrip(x, y, n);
    case SkipKey(x) => SkipKeyRoundTrip(x);
    case SkipNoKey(x) => SkipNoKeyRoundTrip(x);
    case KeyNone(x, nn) => KeyNoneRoundTrip(x, nn);
    case GetDelay(x) => GetDelayRoundTrip(x);
    case WaitKey(x) => WaitKeyRoundTrip(x);
    case SetDelay(x) => SetDelayRoundTrip(x);
    case SetSound(x) => SetSoundRoundTrip(x);
    case AddIndex(x) => AddIndexRoundTrip(x);
    case FontChar(x) => FontCharRoundTrip(x);
    case Bcd(x) => BcdRoundTrip(x);
    case Store(x) => StoreRoundTrip(x);
    case Load(x) => LoadRoundTrip(x);
    case FNone(x, nn) => FNoneRoundTrip(x, nn);
  }

  lemma ClsRoundTrip(x: Nibble)
    ensures Decode(Encode(Cls(x))) == Cls(x)
  {
    DecodeWord(0x0, x, 0xE, 0x0);
  }

  lemma RetRoundTrip(x: Nibble)
    ensures Decode(Encode(Ret(x))) == Ret(x)
  {
    DecodeWord(0x0, x, 0xE, 0xE);
  }

  lemma SysRoundTrip(nnn: nat)
    requires WellFormed(Sys(nnn))
    ensures Decode(Encode(Sys(nnn))) == Sys(nnn)
  {
    DecodeNnn(0x0, nnn);
  }

  lemma JumpRoundTrip(nnn: nat)
    requires nnn < 4096
    ensures Decode(Encode(Jump(nnn))) == Jump(nnn)
  {
    DecodeNnn(0x1, nnn);
  }

  lemma CallRoundTrip(nnn: nat)
    requires nnn < 4096
    ensures Decode(Encode(Call(nnn))) == Call(nnn)
  {
    DecodeNnn(0x2, nnn);
  }

  lemma SkipEqImmRoundTrip(x: Nibble, nn: nat)
    requires nn < 256
    ensures Decode(Encode(SkipEqImm(x, nn))) == SkipEqImm(x, nn)
  {
    DecodeNn(0x3, x, nn);
  }

  lemma SkipNeImmRoundTrip(x: Nibble, nn: nat)
    requires nn < 256
    ensures Decode(Encode(SkipNeImm(x, nn))) == SkipNeImm(x, nn)
  {
    DecodeNn(0x4, x, nn);
  }

  lemma SkipEqRegRoundTrip(x: Nibble, y: Nibble, n: Nibble)
    ensures Decode(Encode(SkipEqReg(x, y, n))) == SkipEqReg(x, y, n)
  {
    DecodeWord(0x5, x, y, n);
  }

  lemma SetImmRoundTrip(x: Nibble, nn: nat)
    requires nn < 256
    ensures Decode(Encode(SetImm(x, nn))) == SetImm(x, nn)
  {
    DecodeNn(0x6, x, nn);
  }

  lemma AddImmRoundTrip(x: Nibble, nn: nat)
    requires nn < 256
    ensures Decode(Encode(AddImm(x, nn))) == AddImm(x, nn)
  {
    DecodeNn(0x7, x, nn);
  }

  lemma AluRoundTrip(op: AluOp, x: Nibble, y: Nibble)
    ensures Decode(Encode(Alu(op, x, y))) == Alu(op, x, y)
  {
    DecodeWord(0x8, x, y, AluCode(op));
  }

  lemma AluNoneRoundTrip(x: Nibble, y: Nibble, n: Nibble)
    requires WellFormed(AluNone(x, y, n))
    ensures Decode(Encode(AluNone(x, y, n))) == AluNone(x, y, n)
  {
    DecodeWord(0x8, x, y, n);
  }

  lemma SkipNeRegRoundTrip(x: Nibble, y: Nibble, n: Nibble)
    ensures Decode(Encode(SkipNeReg(x, y, n))) == SkipNeReg(x, y, n)
  {
    DecodeWord(0x9, x, y, n);
  }

  lemma SetIndexRoundTrip(nnn: nat)
    requires nnn < 4096
    ensures Decode(Encode(SetIndex(nnn))) == SetIndex(nnn)
  {
    DecodeNnn(0xA, nnn);
  }

  lemma JumpOffsetRoundTrip(x: Nibble, nn: nat)
    requires nn < 256
    ensures Decode(Encode(JumpOffset(x, nn))) == JumpOffset(x, nn)
  {
    DecodeNn(0xB, x, nn);
  }

  lemma RandRoundTrip(x: Nibble, nn: nat)
    requires nn < 256
    ensures Decode(Encode(Rand(x, nn))) == Rand(x, nn)
  {
    DecodeNn(0xC, x, nn);
  }

  lemma DrawRoundTrip(x: Nibble, y: Nibble, n: Nibble)
    ensures Decode(Encode(Draw(x, y, n))) == Draw(x, y, n)
  {
    DecodeWord(0xD, x, y, n);
  }

  lemma SkipKeyRoundTrip(x: Nibble)
    ensures Decode(Encode(SkipKey(x))) == SkipKey(x)
  {
    DecodeNn(0xE, x, 0x9E);
  }

  lemma SkipNoKeyRoundTrip(x: Nibble)
    ensures Decode(Encode(SkipNoKey(x))) == SkipNoKey(x)
  {
    DecodeNn(0xE, x, 0xA1);
  }

  lemma KeyNoneRoundTrip(x: Nibble, nn: nat)
    requires WellFormed(KeyNone(x, nn))
    ensures Decode(Encode(KeyNone(x, nn))) == KeyNone(x, nn)
  {
    DecodeNn(0xE, x, nn);
  }

  lemma GetDelayRoundTrip(x: Nibble)
    ensures Decode(Encode(GetDelay(x))) == GetDelay(x)
  {
    DecodeNn(0xF, x, 0x07);
  }

  lemma WaitKeyRoundTrip(x: Nibble)
    ensures Decode(Encode(WaitKey(x))) == WaitKey(x)
  {
    DecodeNn(0xF, x, 0x0A);
  }

  lemma SetDelayRoundTrip(x: Nibble)
    ensures Decode(Encode(SetDelay(x))) == SetDelay(x)
  {
    DecodeNn(0xF, x, 0x15);
  }

  lemma SetSoundRoundTrip(x: Nibble)
    ensures Decode(Encode(SetSound(x))) == SetSound(x)
  {
    DecodeNn(0xF, x, 0x18);
  }

  lemma AddIndexRoundTrip(x: Nibble)
    ensures Decode(Encode(AddIndex(x))) == AddIndex(x)
  {
    DecodeNn(0xF, x, 0x1E);
  }

  lemma FontCharRoundTrip(x: Nibble)
    ensures Decode(Encode(FontChar(x))) == FontChar(x)
  {
    DecodeNn(0xF, x, 0x29);
  }

  lemma BcdRoundTrip(x: Nibble)
    ensures Decode(Encode(Bcd(x))) == Bcd(x)
  {
    DecodeNn(0xF, x, 0x33);
  }

  lemma StoreRoundTrip(x: Nibble)
    ensures Decode(Encode(Store(x))) == Store(x)
  {
    DecodeNn(0xF, x, 0x55);
  }

  lemma LoadRoundTrip(x: Nibble)
    ensures Decode(Encode(Load(x))) == Load(x)
  {
    DecodeNn(0xF, x, 0x65);
  }

  lemma FNoneRoundTrip(x: Nibble, nn: nat)
    requires WellFormed(FNone(x, nn))
    ensures Decode(Encode(FNone(x, nn))) == FNone(x, nn)
  {
    DecodeNn(0xF, x, nn);
  }

  /** The fields of a word with opcode `op`, register `x` and low byte `nn`. */
  lemma DecodeNn(op: Nibble, x: Nibble, nn: nat)
    requires nn < 256
    ensures WordNn(op, x, nn) < 0x10000
    ensures Decode(WordNn(op, x, nn)) == DecodeFields(Fields(op, x, Hi(nn), Lo(nn), nn, x * 256 + nn))
  {
    NnWord(op, x, nn);
  }

  lemma DecodeWord(a: Nibble, b: Nibble, c: Nibble, d: Nibble)
    ensures Decode(Word(a, b, c, d)) == DecodeFields(Fields(a, b, c, d, c * 16 + d, b * 256 + c * 16 + d))
  {
    SplitWord(a, b, c, d);
  }

  lemma DecodeNnn(op: Nibble, nnn: nat)
    requires nnn < 4096
    ensures WordNnn(op, nnn) < 0x10000
    ensures Decode(WordNnn(op, nnn)) == DecodeFields(Fields(op, nnn / 256, (nnn / 16) % 16, nnn % 16, nnn % 256, nnn))
  {
    NnnWord(op, nnn);
  }

  lemma NnWord(op: Nibble, x: Nibble, nn: nat)
    requires nn < 256
    ensures Split(WordNn(op, x, nn)) == Fields(op, x, Hi(nn), Lo(nn), nn, x * 256 + nn)
  {
    NibblesOf(nn, 0);
    SplitWord(op, x, Hi(nn), Lo(nn));
  }

  /** The fields of a word with opcode `op` and low twelve bits `nnn`. */
  lemma NnnWord(op: Nibble, nnn: nat)
    requires nnn < 4096
    ensures Split(WordNnn(op, nnn)) == Fields(op, nnn / 256, (nnn / 16) % 16, nnn % 16, nnn % 256, nnn)
  {
    NibblesOf(0, nnn);
    SplitWord(op, nnn / 256, (nnn / 16) % 16, nnn % 16);
    DivModUnique(nnn, 256, nnn / 256, ((nnn / 16) % 16) * 16 + nnn % 16);
  }
}
