/** The sixteen-word trampoline of WinMaliCsfSubmitStreamCall_: its encoding, the
    program it decodes to, and what that program does when it runs. Words and
    register numbers are UINT64, as in the driver. */
module Trampoline {
  const TAG_PATTERN: bv64 := 0xCAFE_BABE
  const SYNC_GPU_VA: bv64 := 0x42_1000
  const TAG_GPU_VA: bv64 := 0x42_1040

  /** The instructions the driver emits, with the fields it fills. */
  datatype Instr =
    | Nop
    | Move48(reg: bv64, imm: bv64)
    | Move32(reg: bv64, imm: bv64)
    | Wait(scoreboards: bv64)
    | Call(addr: bv64, length: bv64)
    | FlushCache2(latest: bv64, mode: bv64)
    | ErrorBarrier
    | SyncAdd64(addr: bv64, data: bv64)
    | Unknown

  /** Opcode in bits 63..56, operands below. */
  function Decode(w: bv64): Instr {
    var op := w >> 56;
    if w == 0 then Nop
    else if op == 1 then Move48((w >> 48) & 0xff, w & 0xffff_ffff_ffff)
    else if op == 2 then Move32((w >> 48) & 0xff, w & 0xffff_ffff)
    else if op == 3 then Wait((w >> 16) & 0xffff)
    else if op == 32 then Call((w >> 40) & 0xff, (w >> 32) & 0xff)
    else if op == 36 then FlushCache2((w >> 40) & 0xff, w & 0xffff)
    else if op == 47 then ErrorBarrier
    else if op == 51 then SyncAdd64((w >> 40) & 0xff, (w >> 32) & 0xff)
    else Unknown
  }

  function Widen(x: bv32): bv64 { x as bv64 }

  /** What one submission asks for. addrReg is the difference of two register
      counts in UINT64 arithmetic. */
  datatype Request = Request(addrReg: bv64, streamVa: bv64, streamSize: bv32, latestFlush: bv32, sbSlots: bv32) {
    function ValReg(): bv64 { addrReg + 2 }
  }

  function SbWaitMask(slots: bv32): bv32 {
    if slots == 0 then 1
    else if slots >= 16 then 0xffff
    else (1 << slots) - 1
  }

  predicate Names(mask: bv32, slot: bv32)
    requires slot < 32
  {
    (mask >> slot) & 1 == 1
  }

  /** The WAIT(all) mask names every scoreboard slot the hardware has, of the
      sixteen the instruction can name, and no other; slot 0 always. */
  lemma {:induction false} WaitAllNamesEverySlot(slots: bv32, i: bv32)
    requires i < 32
    ensures Names(SbWaitMask(slots), i) <==> i < 16 && (i == 0 || i < slots)
  {
    if slots < 16 && slots != 0 {
      assert ((((1 as bv32) << slots) - 1) >> i) & 1 == 1 <==> i < slots;
    }
  }

  lemma {:induction false} WaitMaskFits(slots: bv32)
    ensures SbWaitMask(slots) <= 0xffff
  {
  }

  function Move48Word(reg: bv64, imm: bv64): bv64 { (1 << 56) | (reg << 48) | imm }
  function Move32Word(reg: bv64, imm: bv32): bv64 { (2 << 56) | (reg << 48) | Widen(imm) }
  function WaitWord(mask: bv32): bv64 { (3 << 56) | (Widen(mask) << 16) }
  function CallWord(a: bv64, v: bv64): bv64 { (32 << 56) | (a << 40) | (v << 32) }
  function FlushWord(v: bv64): bv64 { (36 << 56) | (v << 40) | 0x233 }
  function SyncAddWord(a: bv64, v: bv64): bv64 { (51 << 56) | (a << 40) | (v << 32) | 1 }
  const BARRIER_WORD: bv64 := 47 << 56

  /** Words 0 and 1: clean the caches. */
  function FlushWords(q: Request): (r: seq<bv64>)
    ensures |r| == 2
  {
    [ Move32Word(q.ValReg(), q.latestFlush), FlushWord(q.ValReg()) ]
  }

  /** Words 2 to 5: call the stream. */
  function CallWords(q: Request): (r: seq<bv64>)
    ensures |r| == 4
  {
    var a, v := q.addrReg, q.ValReg();
    [ Move48Word(a, q.streamVa), Move32Word(v, q.streamSize), WaitWord(1), CallWord(a, v) ]
  }

  /** Words 6 to 8: leave the tag. */
  function TagWords(q: Request): (r: seq<bv64>)
    ensures |r| == 3
  {
    var a, v := q.addrReg, q.ValReg();
    [ Move48Word(a, TAG_GPU_VA), Move48Word(v, TAG_PATTERN), SyncAddWord(a, v) ]
  }

  /** Words 9 to 12: wait for the scoreboards, count the job. */
  function CountWords(q: Request): (r: seq<bv64>)
    ensures |r| == 4
  {
    var a, v := q.addrReg, q.ValReg();
    [ Move48Word(a, SYNC_GPU_VA), Move48Word(v, 1), WaitWord(SbWaitMask(q.sbSlots)), SyncAddWord(a, v) ]
  }

  function Encode(q: Request): (r: seq<bv64>)
    ensures |r| == 16
  {
    FlushWords(q) + CallWords(q) + TagWords(q) + CountWords(q) + [0, 0, BARRIER_WORD]
  }

  /** One trampoline word by word: 96 registers of which 4 are the kernel's, 8 scoreboard
      slots, a 64-byte stream at 0x1000_0000, flush id 7. */
  lemma {:induction false} WordsOfOne()
    ensures Encode(Request(92, 0x1000_0000, 64, 7, 8)) ==
            [ 0x025e_0000_0000_0007, 0x2400_5e00_0000_0233, 0x015c_0000_1000_0000, 0x025e_0000_0000_0040,
              0x0300_0000_0001_0000, 0x2000_5c5e_0000_0000, 0x015c_0000_0042_1040, 0x015e_0000_cafe_babe,
              0x3300_5c5e_0000_0001, 0x015c_0000_0042_1000, 0x015e_0000_0000_0001, 0x0300_0000_00ff_0000,
              0x3300_5c5e_0000_0001, 0, 0, 0x2f00_0000_0000_0000 ]
  {
    var q := Request(92, 0x1000_0000, 64, 7, 8);
    assert FlushWords(q) == [0x025e_0000_0000_0007, 0x2400_5e00_0000_0233];
    assert CallWords(q) == [0x015c_0000_1000_0000, 0x025e_0000_0000_0040, 0x0300_0000_0001_0000, 0x2000_5c5e_0000_0000];
    assert TagWords(q) == [0x015c_0000_0042_1040, 0x015e_0000_cafe_babe, 0x3300_5c5e_0000_0001];
    assert CountWords(q) == [0x015c_0000_0042_1000, 0x015e_0000_0000_0001, 0x0300_0000_00ff_0000, 0x3300_5c5e_0000_0001];
  }

  /** The program as the driver documents it, in the same parts. */
  function FlushPart(q: Request): seq<Instr> {
    [ Move32(q.ValReg(), Widen(q.latestFlush)), FlushCache2(q.ValReg(), 0x233) ]
  }

  function CallPart(q: Request): seq<Instr> {
    var a, v := q.addrReg, q.ValReg();
    [ Move48(a, q.streamVa), Move32(v, Widen(q.streamSize)), Wait(1), Call(a, v) ]
  }

  function TagPart(q: Request): seq<Instr> {
    var a, v := q.addrReg, q.ValReg();
    [ Move48(a, TAG_GPU_VA), Move48(v, TAG_PATTERN), SyncAdd64(a, v) ]
  }

  function CountPart(q: Request): seq<Instr> {
    var a, v := q.addrReg, q.ValReg();
    [ Move48(a, SYNC_GPU_VA), Move48(v, 1), Wait(Widen(SbWaitMask(q.sbSlots))), SyncAdd64(a, v) ]
  }

  function Program(q: Request): seq<Instr> {
    FlushPart(q) + CallPart(q) + TagPart(q) + CountPart(q) + [Nop, Nop, ErrorBarrier]
  }

  function DecodeAll(ws: seq<bv64>): (r: seq<Instr>)
    ensures |r| == |ws| && forall i | 0 <= i < |ws| :: r[i] == Decode(ws[i])
  {
    seq(|ws|, i requires 0 <= i < |ws| => Decode(ws[i]))
  }

  predicate FitsByte(x: bv64) { x <= 0xff }
  predicate Fits48(x: bv64) { x <= 0xffff_ffff_ffff }

  predicate Encodable(q: Request) {
    Fits48(q.streamVa) && FitsByte(q.addrReg) && FitsByte(q.ValReg())
  }

  lemma {:induction false} Move48RoundTrip(reg: bv64, imm: bv64)
    ensures Decode(Move48Word(reg, imm)) == Move48(reg, imm) <==> FitsByte(reg) && Fits48(imm)
  {
  }

  lemma {:induction false} Move32RoundTrip(reg: bv64, imm: bv32)
    requires FitsByte(reg)
    ensures Decode(Move32Word(reg, imm)) == Move32(reg, Widen(imm))
  {
  }

  lemma {:induction false} TwoRegisterRoundTrip(a: bv64, v: bv64)
    requires FitsByte(a) && FitsByte(v)
    ensures Decode(CallWord(a, v)) == Call(a, v)
    ensures Decode(SyncAddWord(a, v)) == SyncAdd64(a, v)
    ensures Decode(FlushWord(v)) == FlushCache2(v, 0x233)
  {
  }

  lemma {:induction false} WaitRoundTrip(m: bv32)
    requires m <= 0xffff
    ensures Decode(WaitWord(m)) == Wait(Widen(m))
  {
  }

  lemma {:induction false} ConstantWords()
    ensures Decode(WaitWord(1)) == Wait(1)
    ensures Decode(0) == Nop && Decode(BARRIER_WORD) == ErrorBarrier
  {
  }

  /** Words that carry a full immediate decode back when both registers fit. */
  lemma {:induction false} FixedMoves(a: bv64, v: bv64)
    requires FitsByte(a) && FitsByte(v)
    ensures Decode(Move48Word(a, TAG_GPU_VA)) == Move48(a, TAG_GPU_VA)
    ensures Decode(Move48Word(v, TAG_PATTERN)) == Move48(v, TAG_PATTERN)
    ensures Decode(Move48Word(a, SYNC_GPU_VA)) == Move48(a, SYNC_GPU_VA)
    ensures Decode(Move48Word(v, 1)) == Move48(v, 1)
  {
    hide Decode;
    hide Move48Word;
    hide FitsByte;
    Move48RoundTrip(a, TAG_GPU_VA);
    Move48RoundTrip(v, TAG_PATTERN);
    Move48RoundTrip(a, SYNC_GPU_VA);
    Move48RoundTrip(v, 1);
  }

  lemma {:induction false} CallPartDecodes(q: Request)
    requires Encodable(q)
    ensures DecodeAll(CallWords(q)) == CallPart(q)
  {
    hide Decode;
    hide SbWaitMask;
    hide Request.ValReg;
    hide Widen;
    hide FitsByte;
    hide Fits48;
    hide Move48Word;
    hide Move32Word;
    hide WaitWord;
    hide CallWord;
    hide FlushWord;
    hide SyncAddWord;
    var a, v := q.addrReg, q.ValReg();
    Move48RoundTrip(a, q.streamVa);
    Move32RoundTrip(v, q.streamSize);
    TwoRegisterRoundTrip(a, v);
    ConstantWords();
  }

  lemma {:induction false} FlushAndTagDecode(q: Request)
    requires Encodable(q)
    ensures DecodeAll(FlushWords(q)) == FlushPart(q)
    ensures DecodeAll(TagWords(q)) == TagPart(q)
  {
    hide Decode, SbWaitMask, Request.ValReg, Widen, FitsByte, Fits48;
    hide Move48Word, Move32Word, WaitWord, CallWord, FlushWord, SyncAddWord;
    var a, v := q.addrReg, q.ValReg();
    Move32RoundTrip(v, q.latestFlush);
    TwoRegisterRoundTrip(a, v);
    FixedMoves(a, v);
  }

  lemma {:induction false} FourDecode(w: seq<bv64>)
    requires |w| == 4
    ensures DecodeAll(w) == [Decode(w[0]), Decode(w[1]), Decode(w[2]), Decode(w[3])]
  {
    hide Decode;
  }

  lemma {:induction false} CountDecodes(q: Request)
    requires Encodable(q)
    ensures DecodeAll(CountWords(q)) == CountPart(q)
  {
    var w := CountWords(q);
    assert |w| == 4;
    FourDecode(w);
    hide DecodeAll;
    hide Decode, SbWaitMask, Request.ValReg, Widen, FitsByte, Fits48;
    hide Move48Word, Move32Word, WaitWord, CallWord, FlushWord, SyncAddWord;
    var a, v := q.addrReg, q.ValReg();
    TwoRegisterRoundTrip(a, v);
    FixedMoves(a, v);
    WaitMaskFits(q.sbSlots);
    WaitRoundTrip(SbWaitMask(q.sbSlots));
  }

  lemma {:induction false} EndDecodes()
    ensures DecodeAll([0, 0, BARRIER_WORD]) == [Nop, Nop, ErrorBarrier]
  {
    hide Decode;
    ConstantWords();
  }

  lemma {:induction false} DecodeAllConcat(x: seq<bv64>, y: seq<bv64>)
    ensures DecodeAll(x + y) == DecodeAll(x) + DecodeAll(y)
  {
  }

  /** A stream address of more than 48 bits corrupts word 2, a register over 8 bits
      word 2 or word 10. */
  lemma {:induction false} OversizedFieldsCorrupt(q: Request)
    requires !Encodable(q)
    ensures Decode(CallWords(q)[0]) != CallPart(q)[0] || Decode(CountWords(q)[1]) != CountPart(q)[1]
  {
  }

  lemma {:induction false} PartLengths(q: Request)
    ensures |FlushPart(q)| == 2 && |CallPart(q)| == 4 && |TagPart(q)| == 3 && |CountPart(q)| == 4
  {
  }

  /** The encoded words decode to the documented program exactly when the stream
      address has 48 bits and both registers fit their 8-bit fields. */
  lemma {:induction false} DecodesToProgram(q: Request)
    ensures DecodeAll(Encode(q)) == Program(q) <==> Encodable(q)
  {
    hide Decode;
    hide Encodable;
    hide DecodeAll;
    hide FlushWords;
    hide CallWords;
    hide TagWords;
    hide CountWords;
    hide FlushPart;
    hide CallPart;
    hide TagPart;
    hide CountPart;
    PartLengths(q);
    var f, c, t, n := FlushWords(q), CallWords(q), TagWords(q), CountWords(q);
    DecodeAllConcat(f, c);
    DecodeAllConcat(f + c, t);
    DecodeAllConcat(f + c + t, n);
    DecodeAllConcat(f + c + t + n, [0, 0, BARRIER_WORD]);
    if Encodable(q) {
      CallPartDecodes(q);
      FlushAndTagDecode(q);
      CountDecodes(q);
      EndDecodes();
    } else {
      OversizedFieldsCorrupt(q);
      var e, p := DecodeAll(Encode(q)), Program(q);
      assert e[2] == Decode(CallWords(q)[0]) && p[2] == CallPart(q)[0];
      assert e[10] == Decode(CountWords(q)[1]) && p[10] == CountPart(q)[1];
    }
  }

  /** The registers fit for every feature word the hardware can report (1 to 256
      registers, of which 4 are the kernel's), unless it has fewer than 4. */
  lemma {:induction false} HardwareRegistersFit(q: Request, features: bv32)
    requires q.addrReg == ((features & 0xff) as bv64) + 1 - 4
    ensures Encodable(q) <==> q.streamVa <= 0xffff_ffff_ffff && features & 0xff >= 3
  {
  }

  // ------------------------------------------------------------- running it

  /** What running the program does outside the register file, in order. */
  datatype Effect =
    | Flushed(latest: bv64)
    | Waited(scoreboards: bv64)
    | Called(va: bv64, length: bv64)
    | Added(va: bv64, amount: bv64)
    | Fenced

  datatype Register = R(number: bv64)

  function Reg(regs: map<Register, bv64>, r: bv64): bv64 {
    if R(r) in regs then regs[R(r)] else 0
  }

  type Registers = map<Register, bv64>

  /** What one instruction does to the registers and outside them; a CALL here is
      one that returns, leaving the registers as back has them. */
  function Execute(i: Instr, regs: Registers, back: Registers): (Registers, seq<Effect>) {
    match i
    case Move48(r, imm) => (regs[R(r) := imm], [])
    case Move32(r, imm) => (regs[R(r) := imm], [])
    case Wait(m) => (regs, [Waited(m)])
    case Call(a, v) => (back, [Called(Reg(regs, a), Reg(regs, v))])
    case FlushCache2(v, _) => (regs, [Flushed(Reg(regs, v))])
    case SyncAdd64(a, v) => (regs, [Added(Reg(regs, a), Reg(regs, v))])
    case ErrorBarrier => (regs, [Fenced])
    case Nop => (regs, [])
    case Unknown => (regs, [])
  }

  function Effects(prog: seq<Instr>, regs: Registers, back: Registers): seq<Effect> {
    if prog == [] then []
    else Execute(prog[0], regs, back).1 + Effects(prog[1..], Execute(prog[0], regs, back).0, back)
  }

  function After(prog: seq<Instr>, regs: Registers, back: Registers): Registers {
    if prog == [] then regs else After(prog[1..], Execute(prog[0], regs, back).0, back)
  }

  lemma {:induction false} EffectsConcat(p: seq<Instr>, q: seq<Instr>, regs: Registers, back: Registers)
    ensures Effects(p + q, regs, back) == Effects(p, regs, back) + Effects(q, After(p, regs, back), back)
  {
    hide Execute;
    if p == [] {
      assert p + q == q;
    } else {
      assert (p + q)[1..] == p[1..] + q;
      EffectsConcat(p[1..], q, Execute(p[0], regs, back).0, back);
    }
  }

  lemma {:induction false} Loaded(regs: Registers, a: bv64, x: bv64, v: bv64, y: bv64)
    requires a != v
    ensures var r := regs[R(a) := x][R(v) := y];
            Reg(r, a) == x && Reg(r, v) == y
  {
  }

  /** Peels one instruction off a program. */
  lemma {:induction false} Step(i: Instr, rest: seq<Instr>, regs: Registers, back: Registers)
    ensures Effects([i] + rest, regs, back) == Execute(i, regs, back).1 + Effects(rest, Execute(i, regs, back).0, back)
    ensures After([i] + rest, regs, back) == After(rest, Execute(i, regs, back).0, back)
  {
  }

  /** Two immediates loaded, then used as a pair by one more instruction. */
  lemma {:induction false} LoadAndUse(i: Instr, j: Instr, k: Instr, rest: seq<Instr>, regs: Registers, back: Registers,
                   a: bv64, x: bv64, v: bv64, y: bv64)
    requires i == Move48(a, x) && (j == Move48(v, y) || j == Move32(v, y))
    requires a != v
    ensures Effects([i, j, k] + rest, regs, back) ==
            Execute(k, regs[R(a) := x][R(v) := y], back).1 +
            Effects(rest, Execute(k, regs[R(a) := x][R(v) := y], back).0, back)
  {
    assert [i, j, k] + rest == [i] + ([j] + ([k] + rest));
    Step(i, [j] + ([k] + rest), regs, back);
    Step(j, [k] + rest, regs[R(a) := x], back);
    Step(k, rest, regs[R(a) := x][R(v) := y], back);
  }

  lemma {:induction false} FlushEffects(q: Request, regs: Registers, back: Registers)
    ensures Effects(FlushPart(q), regs, back) == [Flushed(Widen(q.latestFlush))]
  {
    hide Request.ValReg;
    hide Widen;
    hide Effects;
    var v := q.ValReg();
    var r := regs[R(v) := Widen(q.latestFlush)];
    assert FlushPart(q) == [Move32(v, Widen(q.latestFlush))] + [FlushCache2(v, 0x233)];
    Step(Move32(v, Widen(q.latestFlush)), [FlushCache2(v, 0x233)], regs, back);
    OneEffect(FlushCache2(v, 0x233), r, back);
  }

  lemma {:induction false} CallEffects(q: Request, regs: Registers, back: Registers)
    requires q.addrReg != q.ValReg()
    ensures Effects(CallPart(q), regs, back) == [Waited(1), Called(q.streamVa, Widen(q.streamSize))]
  {
    hide Request.ValReg;
    hide Widen;
    hide Effects;
    var a, v, size := q.addrReg, q.ValReg(), Widen(q.streamSize);
    assert CallPart(q) == [Move48(a, q.streamVa), Move32(v, size), Wait(1)] + [Call(a, v)];
    LoadAndUse(Move48(a, q.streamVa), Move32(v, size), Wait(1), [Call(a, v)], regs, back, a, q.streamVa, v, size);
    Loaded(regs, a, q.streamVa, v, size);
    OneEffect(Call(a, v), regs[R(a) := q.streamVa][R(v) := size], back);
  }

  lemma {:induction false} OneEffect(i: Instr, regs: Registers, back: Registers)
    ensures Effects([i], regs, back) == Execute(i, regs, back).1
  {
  }

  lemma {:induction false} TagEffects(q: Request, regs: Registers, back: Registers)
    requires q.addrReg != q.ValReg()
    ensures Effects(TagPart(q), regs, back) == [Added(TAG_GPU_VA, TAG_PATTERN)]
  {
    hide Request.ValReg;
    hide Widen;
    var a, v := q.addrReg, q.ValReg();
    assert TagPart(q) == TagPart(q) + [];
    LoadAndUse(Move48(a, TAG_GPU_VA), Move48(v, TAG_PATTERN), SyncAdd64(a, v), [], regs, back, a, TAG_GPU_VA, v, TAG_PATTERN);
    Loaded(regs, a, TAG_GPU_VA, v, TAG_PATTERN);
  }

  lemma {:induction false} CountEffects(q: Request, regs: Registers, back: Registers)
    requires q.addrReg != q.ValReg()
    ensures Effects(CountPart(q), regs, back) == [Waited(Widen(SbWaitMask(q.sbSlots))), Added(SYNC_GPU_VA, 1)]
  {
    hide SbWaitMask;
    hide Request.ValReg;
    hide Widen;
    hide Effects;
    var a, v := q.addrReg, q.ValReg();
    var w := Wait(Widen(SbWaitMask(q.sbSlots)));
    assert CountPart(q) == [Move48(a, SYNC_GPU_VA), Move48(v, 1), w] + [SyncAdd64(a, v)];
    LoadAndUse(Move48(a, SYNC_GPU_VA), Move48(v, 1), w, [SyncAdd64(a, v)], regs, back, a, SYNC_GPU_VA, v, 1);
    Loaded(regs, a, SYNC_GPU_VA, v, 1);
    OneEffect(SyncAdd64(a, v), regs[R(a) := SYNC_GPU_VA][R(v) := 1], back);
  }

  lemma {:induction false} EndEffects(regs: Registers, back: Registers)
    ensures Effects([Nop, Nop, ErrorBarrier], regs, back) == [Fenced]
  {
    assert [Nop, Nop, ErrorBarrier] == [Nop] + ([Nop] + [ErrorBarrier]);
    Step(Nop, [Nop] + [ErrorBarrier], regs, back);
    Step(Nop, [ErrorBarrier], regs, back);
    OneEffect(ErrorBarrier, regs, back);
  }

  /** The documented program flushes, calls the stream, leaves the tag as soon as
      the call returns, and bumps the sequence number only after waiting for
      everything the stream started, whatever the stream leaves in the registers. Apart
      from what the stream does it touches nothing else. */
  lemma {:induction false} ProgramEffects(q: Request, regs: Registers, back: Registers)
    ensures Effects(Program(q), regs, back) ==
            [ Flushed(Widen(q.latestFlush)), Waited(1), Called(q.streamVa, Widen(q.streamSize)),
              Added(TAG_GPU_VA, TAG_PATTERN), Waited(Widen(SbWaitMask(q.sbSlots))), Added(SYNC_GPU_VA, 1), Fenced ]
  {
    hide SbWaitMask;
    hide Effects;
    hide After;
    hide FlushPart;
    hide CallPart;
    hide TagPart;
    hide CountPart;
    assert q.addrReg != q.ValReg() by { RegistersDiffer(q.addrReg); }
    hide Request.ValReg;
    hide Widen;
    var f, c, t, n, e := FlushPart(q), CallPart(q), TagPart(q), CountPart(q), [Nop, Nop, ErrorBarrier];
    EffectsConcat(f + c + t + n, e, regs, back);
    EffectsConcat(f + c + t, n, regs, back);
    EffectsConcat(f + c, t, regs, back);
    EffectsConcat(f, c, regs, back);
    FlushEffects(q, regs, back);
    CallEffects(q, After(f, regs, back), back);
    TagEffects(q, After(f + c, regs, back), back);
    CountEffects(q, After(f + c + t, regs, back), back);
    EndEffects(After(f + c + t + n, regs, back), back);
  }

  lemma {:induction false} RegistersDiffer(a: bv64)
    ensures a != a + 2
  {
  }
}
