/** Hack machine semantics for straight-line assembly, enough to state what
    the code the VM translator emits does to the stack. A program is the
    text the assembler reads: it is parsed as the assembler parses it, each
    instruction is decoded, and the decoded program runs. An A-instruction
    loads a built-in symbol or a decimal literal truncated to 15 bits (as
    the assembler encodes it); a C-instruction computes one of the 28
    computations of the assembler's comp table and stores the result into
    the destinations it names, the memory write going to the address A held
    before the instruction. Jumps and user symbols are outside this
    fragment. The machine runs the comp mnemonic, not the bits the
    assembler prints for it: `!A` runs as the bitwise not of A although the
    assembler's table gives it the code of `-A` (src/assemble.cpp:33), so
    for a program that uses `!A` these semantics differ from what the
    printed binary does. The snippets the VM translator emits do not use
    `!A`. */
module HackMachine {
  import opened Results
  import opened Text
  import opened HackParse
  import opened Assemble
  import VmParse
  import Vm

  const WordLimit: nat := 0x1_0000

  /** A 16-bit word, unsigned. */
  type Word = n: nat | n < WordLimit

  function Wrap(x: int): Word { x % WordLimit }

  /** Bitwise operations, through the 16-bit vector type. */
  function BitNot(x: Word): Word { 0xFFFF - x }
  function BitAnd(x: Word, y: Word): Word { ((x as bv16) & (y as bv16)) as nat }
  function BitOr(x: Word, y: Word): Word { ((x as bv16) | (y as bv16)) as nat }

  datatype Machine = Machine(a: Word, d: Word, ram: map<Word, Word>)

  /** RAM reads as 0 where nothing was written. */
  function Read(ram: map<Word, Word>, address: Word): Word
  {
    if address in ram then ram[address] else 0
  }

  /** The value `@value` places in A. */
  function Address(value: string): Option<Word>
  {
    if |value| > 0 && IsAlpha(value[0]) then
      if value in BuiltInSymbols then Some(BuiltInSymbols[value] % 0x8000) else None
    else
      match Stoi(value)
      case Ok(v) => Some(v % 0x8000)
      case Err(_) => None
  }

  /** The computations of the Hack language. */
  datatype Computation =
    | Zero | One | MinusOne | DReg | AReg | MReg | NotD | NotA | NotM
    | NegD | NegA | NegM | DPlusOne | APlusOne | MPlusOne | DMinusOne | AMinusOne | MMinusOne
    | DPlusA | DPlusM | DMinusA | DMinusM | AMinusD | MMinusD | DAndA | DAndM | DOrA | DOrM

  /** The mnemonics, the same 28 keys as the assembler's comp table. */
  const Computations: map<string, Computation> :=
    map["0" := Zero, "1" := One, "-1" := MinusOne, "D" := DReg, "A" := AReg, "!D" := NotD, "!A" := NotA,
        "-D" := NegD, "-A" := NegA, "D+1" := DPlusOne, "A+1" := APlusOne, "D-1" := DMinusOne, "A-1" := AMinusOne,
        "D+A" := DPlusA, "D-A" := DMinusA, "A-D" := AMinusD, "D&A" := DAndA, "D|A" := DOrA,
        "M" := MReg, "!M" := NotM, "-M" := NegM, "M+1" := MPlusOne, "M-1" := MMinusOne,
        "D+M" := DPlusM, "D-M" := DMinusM, "M-D" := MMinusD, "D&M" := DAndM, "D|M" := DOrM]

  /** The ALU on 16-bit words. */
  function Apply(c: Computation, a: Word, d: Word, m: Word): Word
  {
    match c
    case Zero => 0
    case One => 1
    case MinusOne => 0xFFFF
    case DReg => d
    case AReg => a
    case MReg => m
    case NotD => BitNot(d)
    case NotA => BitNot(a)
    case NotM => BitNot(m)
    case NegD => Wrap(WordLimit - d)
    case NegA => Wrap(WordLimit - a)
    case NegM => Wrap(WordLimit - m)
    case DPlusOne => Wrap(d + 1)
    case APlusOne => Wrap(a + 1)
    case MPlusOne => Wrap(m + 1)
    case DMinusOne => Wrap(d - 1)
    case AMinusOne => Wrap(a - 1)
    case MMinusOne => Wrap(m - 1)
    case DPlusA => Wrap(d + a)
    case DPlusM => Wrap(d + m)
    case DMinusA => Wrap(d - a)
    case DMinusM => Wrap(d - m)
    case AMinusD => Wrap(a - d)
    case MMinusD => Wrap(m - d)
    case DAndA => BitAnd(d, a)
    case DAndM => BitAnd(d, m)
    case DOrA => BitOr(d, a)
    case DOrM => BitOr(d, m)
  }

  /** A decoded instruction: a label does nothing, an A-instruction loads a
      word into A, a C-instruction computes a word and stores it into A, D
      and RAM[A] as its destination says. */
  datatype Op = Nop | LoadA(value: Word) | Compute(toA: bool, toD: bool, toM: bool, comp: Computation)

  /** Decoding; None for what the fragment leaves out: a jump, a symbol
      that is not built in, a literal stoi rejects, an unknown computation
      or destination. */
  function Decode(inst: Instruction): Option<Op>
  {
    match inst
    case Label(_) => Some(Nop)
    case AInstruction(value) =>
      (match Address(value)
       case None => None
       case Some(w) => Some(LoadA(w)))
    case CInstruction(dest, comp, jump) =>
      if jump.Some? || comp !in Computations then None
      else if dest.None? then Some(Compute(false, false, false, Computations[comp]))
      else if dest.value in DestTable then
        Some(Compute('A' in dest.value, 'D' in dest.value, 'M' in dest.value, Computations[comp]))
      else None
  }

  function DecodeAll(insts: seq<Instruction>): Option<seq<Op>>
  {
    if insts == [] then Some([])
    else
      match Decode(insts[0])
      case None => None
      case Some(op) =>
        match DecodeAll(insts[1..])
        case None => None
        case Some(ops) => Some([op] + ops)
  }

  /** One instruction; a memory write goes to the address A held before. */
  function Step(op: Op, m: Machine): Machine
  {
    match op
    case Nop => m
    case LoadA(w) => m.(a := w)
    case Compute(toA, toD, toM, c) =>
      var x := Apply(c, m.a, m.d, Read(m.ram, m.a));
      Machine(if toA then x else m.a, if toD then x else m.d, if toM then m.ram[m.a := x] else m.ram)
  }

  /** Run the instructions from index k to the end. */
  function ExecFrom(ops: seq<Op>, k: nat, m: Machine): Machine
    requires k <= |ops|
    decreases |ops| - k
  {
    if k == |ops| then m else ExecFrom(ops, k + 1, Step(ops[k], m))
  }

  function Exec(ops: seq<Op>, m: Machine): Machine
  {
    ExecFrom(ops, 0, m)
  }

  /** Parse the text as the assembler does, decode it, run it. */
  function Run(lines: seq<string>, m: Machine): Option<Machine>
  {
    match ParseLines(lines)
    case Err(_) => None
    case Ok(insts) =>
      match DecodeAll(insts)
      case None => None
      case Some(ops) => Some(Exec(ops, m))
  }

  /** The machine of the fragment accepts exactly the assembler's
      computations. */
  lemma ComputationsAreCompTable()
    ensures Computations.Keys == CompTable.Keys
  {
  }

  // ---------------------------------------------------------------------
  // From text to operations

  /** Lines that each parse to the corresponding instruction collect to
      those instructions. */
  lemma {:induction false} ParseEach(lines: seq<string>, insts: seq<Instruction>)
    requires |lines| == |insts|
    requires forall k :: 0 <= k < |lines| ==> ParseLine(lines[k]) == Ok(Some(insts[k]))
    ensures ParseLines(lines) == Ok(insts)
  {
    if lines != [] {
      assert ParseLine(lines[0]) == Ok(Some(insts[0]));
      ParseEach(lines[1..], insts[1..]);
      assert [insts[0]] + insts[1..] == insts;
    }
  }

  lemma PlainText(text: string)
    requires NoSpace(text) && '/' !in text
    ensures Plain(text)
  {
    forall j: nat ensures !OccursAt(text, "//", j) {
      OccursAtSlashes(text, j);
    }
  }

  /** A line `@value` with no blank and no slash is that A-instruction. */
  lemma ParseAtLine(s: string)
    requires NoSpace(s) && '/' !in s && |s| > 0 && s[0] == '@'
    ensures ParseLine(s) == Ok(Some(AInstruction(s[1..])))
  {
    PlainText(s);
    CleanPlain(s);
  }

  lemma ParseAt(value: string)
    requires NoSpace(value) && '/' !in value
    ensures ParseLine("@" + value) == Ok(Some(AInstruction(value)))
  {
    var s := "@" + value;
    assert forall k :: 1 <= k < |s| ==> s[k] == value[k - 1];
    assert s[1..] == value;
    ParseAtLine(s);
  }

  /** A line `dest=comp` with no blank, slash or semicolon, whose first `=`
      is at e, is that C-instruction. */
  lemma ParseAssignLine(s: string, e: nat)
    requires NoSpace(s) && '/' !in s && ';' !in s
    requires 0 < e < |s| && s[e] == '=' && '=' !in s[..e] && s[0] != '@' && s[0] != '('
    ensures ParseLine(s) == Ok(Some(CInstruction(Some(s[..e]), s[e + 1..], None)))
  {
    PlainText(s);
    CleanPlain(s);
    FirstIndex(s, '=', e);
    FindChar(s, ';');
  }

  // The parse of each line the emitted snippets use.

  lemma ParseSP() ensures ParseLine("@SP") == Ok(Some(AInstruction("SP")))
  {
    ParseAtLine("@SP");
    assert "@SP"[1..] == "SP";
  }

  lemma ParseR15() ensures ParseLine("@R15") == Ok(Some(AInstruction("R15")))
  {
    ParseAtLine("@R15");
    assert "@R15"[1..] == "R15";
  }

  lemma ParseDA() ensures ParseLine("D=A") == Ok(Some(CInstruction(Some("D"), "A", None)))
  {
    ParseAssignLine("D=A", 1);
    assert "D=A"[..1] == "D" && "D=A"[2..] == "A";
  }

  lemma ParseDM() ensures ParseLine("D=M") == Ok(Some(CInstruction(Some("D"), "M", None)))
  {
    ParseAssignLine("D=M", 1);
    assert "D=M"[..1] == "D" && "D=M"[2..] == "M";
  }

  lemma ParseAM() ensures ParseLine("A=M") == Ok(Some(CInstruction(Some("A"), "M", None)))
  {
    ParseAssignLine("A=M", 1);
    assert "A=M"[..1] == "A" && "A=M"[2..] == "M";
  }

  lemma ParseMD() ensures ParseLine("M=D") == Ok(Some(CInstruction(Some("M"), "D", None)))
  {
    ParseAssignLine("M=D", 1);
    assert "M=D"[..1] == "M" && "M=D"[2..] == "D";
  }

  lemma ParseMInc() ensures ParseLine("M=M+1") == Ok(Some(CInstruction(Some("M"), "M+1", None)))
  {
    ParseAssignLine("M=M+1", 1);
    assert "M=M+1"[..1] == "M" && "M=M+1"[2..] == "M+1";
  }

  lemma ParseMDec() ensures ParseLine("M=M-1") == Ok(Some(CInstruction(Some("M"), "M-1", None)))
  {
    ParseAssignLine("M=M-1", 1);
    assert "M=M-1"[..1] == "M" && "M=M-1"[2..] == "M-1";
  }

  lemma ParseDDPlusA() ensures ParseLine("D=D+A") == Ok(Some(CInstruction(Some("D"), "D+A", None)))
  {
    ParseAssignLine("D=D+A", 1);
    assert "D=D+A"[..1] == "D" && "D=D+A"[2..] == "D+A";
  }

  lemma ParseADPlusA() ensures ParseLine("A=D+A") == Ok(Some(CInstruction(Some("A"), "D+A", None)))
  {
    ParseAssignLine("A=D+A", 1);
    assert "A=D+A"[..1] == "A" && "A=D+A"[2..] == "D+A";
  }

  /** Instructions that each decode to the corresponding operation decode
      together to those operations. */
  lemma {:induction false} DecodeEach(insts: seq<Instruction>, ops: seq<Op>)
    requires |insts| == |ops|
    requires forall k :: 0 <= k < |insts| ==> Decode(insts[k]) == Some(ops[k])
    ensures DecodeAll(insts) == Some(ops)
  {
    if insts != [] {
      assert Decode(insts[0]) == Some(ops[0]);
      DecodeEach(insts[1..], ops[1..]);
      assert [ops[0]] + ops[1..] == ops;
    }
  }

  /** The first instruction decoding, and the rest decoding, is all of
      them decoding. */
  lemma DecodeHead(insts: seq<Instruction>, ops: seq<Op>)
    requires |insts| == |ops| > 0
    requires Decode(insts[0]) == Some(ops[0]) && DecodeAll(insts[1..]) == Some(ops[1..])
    ensures DecodeAll(insts) == Some(ops)
  {
    assert [ops[0]] + ops[1..] == ops;
  }

  // The decoding of each instruction the emitted snippets use.

  lemma DecodeSP() ensures Decode(AInstruction("SP")) == Some(LoadA(0)) {}
  lemma DecodeR15() ensures Decode(AInstruction("R15")) == Some(LoadA(15)) {}
  lemma DecodeDA() ensures Decode(CInstruction(Some("D"), "A", None)) == Some(Compute(false, true, false, AReg)) {}
  lemma DecodeDM() ensures Decode(CInstruction(Some("D"), "M", None)) == Some(Compute(false, true, false, MReg)) {}
  lemma DecodeAM() ensures Decode(CInstruction(Some("A"), "M", None)) == Some(Compute(true, false, false, MReg)) {}
  lemma DecodeMD() ensures Decode(CInstruction(Some("M"), "D", None)) == Some(Compute(false, false, true, DReg)) {}
  lemma DecodeMInc() ensures Decode(CInstruction(Some("M"), "M+1", None)) == Some(Compute(false, false, true, MPlusOne)) {}
  lemma DecodeMDec() ensures Decode(CInstruction(Some("M"), "M-1", None)) == Some(Compute(false, false, true, MMinusOne)) {}
  lemma DecodeDDPlusA() ensures Decode(CInstruction(Some("D"), "D+A", None)) == Some(Compute(false, true, false, DPlusA)) {}
  lemma DecodeADPlusA() ensures Decode(CInstruction(Some("A"), "D+A", None)) == Some(Compute(true, false, false, DPlusA)) {}

  /** The word `@i` loads for a decimal literal stoi accepts. */
  lemma AddressLiteral(i: nat)
    requires i <= IntMax
    ensures Address(NatToString(i)) == Some(i % 0x8000)
  {
    ScanNatToString(i);
    var s := NatToString(i);
    assert !IsAlpha(s[0]);
    assert Stoi(s) == Ok(i);
  }

  lemma {:induction false} ExecFromAppend(a: seq<Op>, b: seq<Op>, k: nat, m: Machine)
    requires k <= |a|
    ensures ExecFrom(a + b, k, m) == ExecFrom(b, 0, ExecFrom(a, k, m))
    decreases |a| - k
  {
    if k < |a| {
      assert (a + b)[k] == a[k];
      ExecFromAppend(a, b, k + 1, Step(a[k], m));
    } else {
      ExecFromShift(a, b, 0, m);
    }
  }

  lemma {:induction false} ExecFromShift(a: seq<Op>, b: seq<Op>, j: nat, m: Machine)
    requires j <= |b|
    ensures ExecFrom(a + b, |a| + j, m) == ExecFrom(b, j, m)
    decreases |b| - j
  {
    if j < |b| {
      assert (a + b)[|a| + j] == b[j];
      ExecFromShift(a, b, j + 1, Step(b[j], m));
    }
  }

  /** Running two pieces one after the other. */
  lemma ExecAppend(a: seq<Op>, b: seq<Op>, m: Machine)
    ensures Exec(a + b, m) == Exec(b, Exec(a, m))
  {
    ExecFromAppend(a, b, 0, m);
  }

  // ---------------------------------------------------------------------
  // Pieces of the emitted snippets

  /** The text parses to code, which decodes to ops. */
  predicate Assembles(text: seq<string>, code: seq<Instruction>, ops: seq<Op>)
  {
    ParseLines(text) == Ok(code) && DecodeAll(code) == Some(ops)
  }

  /** Pieces that assemble, one after the other, assemble to their
      operations one after the other. */
  lemma AssemblesAppend(t1: seq<string>, c1: seq<Instruction>, o1: seq<Op>, t2: seq<string>, c2: seq<Instruction>, o2: seq<Op>)
    requires Assembles(t1, c1, o1) && Assembles(t2, c2, o2)
    ensures Assembles(t1 + t2, c1 + c2, o1 + o2)
  {
    CollectAppend(t1, t2, ParseLine);
    DecodeAllAppend(c1, c2, o1, o2);
  }

  lemma {:induction false} DecodeAllAppend(a: seq<Instruction>, b: seq<Instruction>, x: seq<Op>, y: seq<Op>)
    requires DecodeAll(a) == Some(x) && DecodeAll(b) == Some(y)
    ensures DecodeAll(a + b) == Some(x + y)
  {
    if a == [] {
      assert a + b == b;
      assert x + y == y;
    } else {
      var op, rest := DecodeAllUncons(a, x);
      DecodeAllAppend(a[1..], b, rest, y);
      DecodeAllCons(a[0], a[1..] + b, op, rest + y);
      assert a + b == [a[0]] + (a[1..] + b);
      assert x + y == [op] + (rest + y);
    }
  }

  lemma DecodeAllUncons(a: seq<Instruction>, x: seq<Op>) returns (op: Op, rest: seq<Op>)
    requires a != [] && DecodeAll(a) == Some(x)
    ensures Decode(a[0]) == Some(op) && DecodeAll(a[1..]) == Some(rest) && x == [op] + rest
  {
    op := Decode(a[0]).value;
    rest := DecodeAll(a[1..]).value;
  }

  lemma DecodeAllCons(inst: Instruction, rest: seq<Instruction>, op: Op, ops: seq<Op>)
    requires Decode(inst) == Some(op) && DecodeAll(rest) == Some(ops)
    ensures DecodeAll([inst] + rest) == Some([op] + ops)
  {
    assert ([inst] + rest)[0] == inst;
    assert ([inst] + rest)[1..] == rest;
  }

  /** Assembled text runs as its operations. */
  lemma RunAssembled(text: seq<string>, code: seq<Instruction>, ops: seq<Op>, m: Machine)
    requires Assembles(text, code, ops)
    ensures Run(text, m) == Some(Exec(ops, m))
  {
  }

  // Pushing D: @SP, A=M, M=D, @SP, M=M+1.

  const PushDText: seq<string> := ["@SP", "A=M", "M=D", "@SP", "M=M+1"]

  const PushDCode: seq<Instruction> :=
    [AInstruction("SP"), CInstruction(Some("A"), "M", None), CInstruction(Some("M"), "D", None),
     AInstruction("SP"), CInstruction(Some("M"), "M+1", None)]

  const PushDOps: seq<Op> :=
    [LoadA(0), Compute(true, false, false, MReg), Compute(false, false, true, DReg),
     LoadA(0), Compute(false, false, true, MPlusOne)]

  lemma PushDAssembles()
    ensures Assembles(PushDText, PushDCode, PushDOps)
  {
    PushDParses();
    PushDDecodes();
  }

  lemma PushDParses()
    ensures ParseLines(PushDText) == Ok(PushDCode)
  {
    forall k | 0 <= k < 5
      ensures ParseLine(PushDText[k]) == Ok(Some(PushDCode[k]))
    {
      if k == 0 || k == 3 {
        ParseSP();
      } else if k == 1 {
        ParseAM();
      } else if k == 2 {
        ParseMD();
      } else {
        ParseMInc();
      }
    }
    ParseEach(PushDText, PushDCode);
  }

  lemma PushDDecodes()
    ensures DecodeAll(PushDCode) == Some(PushDOps)
  {
    forall k | 0 <= k < 5
      ensures Decode(PushDCode[k]) == Some(PushDOps[k])
    {
      if k == 0 || k == 3 {
        DecodeSP();
      } else if k == 1 {
        DecodeAM();
      } else if k == 2 {
        DecodeMD();
      } else {
        DecodeMInc();
      }
    }
    DecodeEach(PushDCode, PushDOps);
  }

  /** The machine after v is stored at RAM[SP] and SP incremented. */
  function Pushed(m: Machine, v: Word): Machine
  {
    var stored := m.ram[Read(m.ram, 0) := v];
    Machine(0, v, stored[0 := Wrap(Read(stored, 0) + 1)])
  }

  /** When SP does not point at itself, push stores v at RAM[SP] and SP
      grows by 1, modulo 2^16; nothing else in RAM changes. */
  lemma PushedStack(m: Machine, v: Word)
    requires Read(m.ram, 0) != 0
    ensures var sp := Read(m.ram, 0);
      Pushed(m, v) == Machine(0, v, m.ram[sp := v][0 := Wrap(sp + 1)])
  {
  }

  lemma PushDExec(m: Machine)
    ensures Exec(PushDOps, m) == Pushed(m, m.d)
  {
    var ops := PushDOps;
    var sp := Read(m.ram, 0);
    var stored := m.ram[sp := m.d];
    assert ExecFrom(ops, 0, m) == ExecFrom(ops, 1, Machine(0, m.d, m.ram));
    assert ExecFrom(ops, 1, Machine(0, m.d, m.ram)) == ExecFrom(ops, 2, Machine(sp, m.d, m.ram));
    assert ExecFrom(ops, 2, Machine(sp, m.d, m.ram)) == ExecFrom(ops, 3, Machine(sp, m.d, stored));
    assert ExecFrom(ops, 3, Machine(sp, m.d, stored)) == ExecFrom(ops, 4, Machine(0, m.d, stored));
    assert ExecFrom(ops, 4, Machine(0, m.d, stored)) == ExecFrom(ops, 5, Pushed(m, m.d));
  }

  // Popping into D: @SP, M=M-1, A=M, D=M.

  const PopDText: seq<string> := ["@SP", "M=M-1", "A=M", "D=M"]

  const PopDCode: seq<Instruction> :=
    [AInstruction("SP"), CInstruction(Some("M"), "M-1", None), CInstruction(Some("A"), "M", None),
     CInstruction(Some("D"), "M", None)]

  const PopDOps: seq<Op> :=
    [LoadA(0), Compute(false, false, true, MMinusOne), Compute(true, false, false, MReg), Compute(false, true, false, MReg)]

  lemma PopDAssembles()
    ensures Assembles(PopDText, PopDCode, PopDOps)
  {
    PopDParses();
    PopDDecodes();
  }

  lemma PopDParses()
    ensures ParseLines(PopDText) == Ok(PopDCode)
  {
    forall k | 0 <= k < 4
      ensures ParseLine(PopDText[k]) == Ok(Some(PopDCode[k]))
    {
      if k == 0 {
        ParseSP();
      } else if k == 1 {
        ParseMDec();
      } else if k == 2 {
        ParseAM();
      } else {
        ParseDM();
      }
    }
    ParseEach(PopDText, PopDCode);
  }

  lemma PopDDecodes()
    ensures DecodeAll(PopDCode) == Some(PopDOps)
  {
    forall k | 0 <= k < 4
      ensures Decode(PopDCode[k]) == Some(PopDOps[k])
    {
      if k == 0 {
        DecodeSP();
      } else if k == 1 {
        DecodeMDec();
      } else if k == 2 {
        DecodeAM();
      } else {
        DecodeDM();
      }
    }
    DecodeEach(PopDCode, PopDOps);
  }

  /** The machine after SP is decremented and the word it then points at is
      loaded into D (A holds the new SP). */
  function PoppedD(m: Machine): Machine
  {
    var sp := Wrap(Read(m.ram, 0) - 1);
    var ram := m.ram[0 := sp];
    Machine(sp, Read(ram, sp), ram)
  }

  lemma PopDExec(m: Machine)
    ensures Exec(PopDOps, m) == PoppedD(m)
  {
    var ops := PopDOps;
    var sp := Wrap(Read(m.ram, 0) - 1);
    var ram := m.ram[0 := sp];
    assert ExecFrom(ops, 0, m) == ExecFrom(ops, 1, Machine(0, m.d, m.ram));
    assert ExecFrom(ops, 1, Machine(0, m.d, m.ram)) == ExecFrom(ops, 2, Machine(0, m.d, ram));
    assert ExecFrom(ops, 2, Machine(0, m.d, ram)) == ExecFrom(ops, 3, Machine(sp, m.d, ram));
    assert ExecFrom(ops, 3, Machine(sp, m.d, ram)) == ExecFrom(ops, 4, PoppedD(m));
  }

  // Loading a word into D: @value, then D=A (the word itself) or D=M (the
  // word stored there).

  function LoadBaseText(value: string, exactAddress: bool): seq<string>
  {
    ["@" + value, if exactAddress then "D=A" else "D=M"]
  }

  function LoadBaseCode(value: string, exactAddress: bool): seq<Instruction>
  {
    [AInstruction(value), CInstruction(Some("D"), if exactAddress then "A" else "M", None)]
  }

  function LoadBaseOps(exactAddress: bool, r: Word): seq<Op>
  {
    [LoadA(r), Compute(false, true, false, if exactAddress then AReg else MReg)]
  }

  lemma LoadBaseAssembles(value: string, exactAddress: bool, r: Word)
    requires NoSpace(value) && '/' !in value && Address(value) == Some(r)
    ensures Assembles(LoadBaseText(value, exactAddress), LoadBaseCode(value, exactAddress), LoadBaseOps(exactAddress, r))
  {
    LoadBaseParses(value, exactAddress);
    LoadBaseTailDecodes(value, exactAddress, r);
    DecodeHead(LoadBaseCode(value, exactAddress), LoadBaseOps(exactAddress, r));
  }

  lemma LoadBaseParses(value: string, exactAddress: bool)
    requires NoSpace(value) && '/' !in value
    ensures ParseLines(LoadBaseText(value, exactAddress)) == Ok(LoadBaseCode(value, exactAddress))
  {
    var text := LoadBaseText(value, exactAddress);
    var code := LoadBaseCode(value, exactAddress);
    forall k | 0 <= k < 2
      ensures ParseLine(text[k]) == Ok(Some(code[k]))
    {
      if k == 0 {
        ParseAt(value);
      } else if exactAddress {
        ParseDA();
      } else {
        ParseDM();
      }
    }
    ParseEach(text, code);
  }

  lemma LoadBaseTailDecodes(value: string, exactAddress: bool, r: Word)
    ensures DecodeAll(LoadBaseCode(value, exactAddress)[1..]) == Some(LoadBaseOps(exactAddress, r)[1..])
  {
    var code := LoadBaseCode(value, exactAddress)[1..];
    var ops := LoadBaseOps(exactAddress, r)[1..];
    forall k | 0 <= k < 1
      ensures Decode(code[k]) == Some(ops[k])
    {
      if exactAddress { DecodeDA(); } else { DecodeDM(); }
    }
    DecodeEach(code, ops);
  }

  /** The base a segment access adds i to: the literal address r (temp), or
      the word stored at r (a base register). */
  function Base(exactAddress: bool, r: Word, m: Machine): Word
  {
    if exactAddress then r else Read(m.ram, r)
  }

  lemma LoadBaseExec(exactAddress: bool, r: Word, m: Machine)
    ensures Exec(LoadBaseOps(exactAddress, r), m) == Machine(r, Base(exactAddress, r, m), m.ram)
  {
    var ops := LoadBaseOps(exactAddress, r);
    assert ExecFrom(ops, 0, m) == ExecFrom(ops, 1, Machine(r, m.d, m.ram));
    assert ExecFrom(ops, 1, Machine(r, m.d, m.ram)) == ExecFrom(ops, 2, Machine(r, Base(exactAddress, r, m), m.ram));
  }

  // Reading base + i into D: @i, A=D+A, D=M.

  function PushIndexText(value: string): seq<string> { ["@" + value, "A=D+A", "D=M"] }

  function PushIndexCode(value: string): seq<Instruction>
  {
    [AInstruction(value), CInstruction(Some("A"), "D+A", None), CInstruction(Some("D"), "M", None)]
  }

  function PushIndexOps(v: Word): seq<Op>
  {
    [LoadA(v), Compute(true, false, false, DPlusA), Compute(false, true, false, MReg)]
  }

  lemma PushIndexAssembles(value: string, v: Word)
    requires NoSpace(value) && '/' !in value && Address(value) == Some(v)
    ensures Assembles(PushIndexText(value), PushIndexCode(value), PushIndexOps(v))
  {
    PushIndexParses(value);
    PushIndexTailDecodes(value, v);
    DecodeHead(PushIndexCode(value), PushIndexOps(v));
  }

  lemma PushIndexParses(value: string)
    requires NoSpace(value) && '/' !in value
    ensures ParseLines(PushIndexText(value)) == Ok(PushIndexCode(value))
  {
    var text := PushIndexText(value);
    var code := PushIndexCode(value);
    forall k | 0 <= k < 3
      ensures ParseLine(text[k]) == Ok(Some(code[k]))
    {
      if k == 0 {
        ParseAt(value);
      } else if k == 1 {
        ParseADPlusA();
      } else {
        ParseDM();
      }
    }
    ParseEach(text, code);
  }

  lemma PushIndexTailDecodes(value: string, v: Word)
    ensures DecodeAll(PushIndexCode(value)[1..]) == Some(PushIndexOps(v)[1..])
  {
    var code := PushIndexCode(value)[1..];
    var ops := PushIndexOps(v)[1..];
    forall k | 0 <= k < 2
      ensures Decode(code[k]) == Some(ops[k])
    {
      if k == 0 { DecodeADPlusA(); } else { DecodeDM(); }
    }
    DecodeEach(code, ops);
  }

  lemma PushIndexExec(v: Word, m: Machine)
    ensures var address := Wrap(m.d + v);
      Exec(PushIndexOps(v), m) == Machine(address, Read(m.ram, address), m.ram)
  {
    var ops := PushIndexOps(v);
    var address := Wrap(m.d + v);
    assert ExecFrom(ops, 0, m) == ExecFrom(ops, 1, Machine(v, m.d, m.ram));
    assert ExecFrom(ops, 1, Machine(v, m.d, m.ram)) == ExecFrom(ops, 2, Machine(address, m.d, m.ram));
  }

  // Saving base + i in R15: @i, D=D+A, @R15, M=D.

  function PopIndexText(value: string): seq<string> { ["@" + value, "D=D+A", "@R15", "M=D"] }

  function PopIndexCode(value: string): seq<Instruction>
  {
    [AInstruction(value), CInstruction(Some("D"), "D+A", None), AInstruction("R15"), CInstruction(Some("M"), "D", None)]
  }

  function PopIndexOps(v: Word): seq<Op>
  {
    [LoadA(v), Compute(false, true, false, DPlusA), LoadA(15), Compute(false, false, true, DReg)]
  }

  lemma PopIndexAssembles(value: string, v: Word)
    requires NoSpace(value) && '/' !in value && Address(value) == Some(v)
    ensures Assembles(PopIndexText(value), PopIndexCode(value), PopIndexOps(v))
  {
    PopIndexParses(value);
    PopIndexTailDecodes(value, v);
    DecodeHead(PopIndexCode(value), PopIndexOps(v));
  }

  lemma PopIndexParses(value: string)
    requires NoSpace(value) && '/' !in value
    ensures ParseLines(PopIndexText(value)) == Ok(PopIndexCode(value))
  {
    var text := PopIndexText(value);
    var code := PopIndexCode(value);
    forall k | 0 <= k < 4
      ensures ParseLine(text[k]) == Ok(Some(code[k]))
    {
      if k == 0 {
        ParseAt(value);
      } else if k == 1 {
        ParseDDPlusA();
      } else if k == 2 {
        ParseR15();
      } else {
        ParseMD();
      }
    }
    ParseEach(text, code);
  }

  lemma PopIndexTailDecodes(value: string, v: Word)
    ensures DecodeAll(PopIndexCode(value)[1..]) == Some(PopIndexOps(v)[1..])
  {
    var code := PopIndexCode(value)[1..];
    var ops := PopIndexOps(v)[1..];
    forall k | 0 <= k < 3
      ensures Decode(code[k]) == Some(ops[k])
    {
      if k == 0 { DecodeDDPlusA(); } else if k == 1 { DecodeR15(); } else { DecodeMD(); }
    }
    DecodeEach(code, ops);
  }

  lemma PopIndexExec(v: Word, m: Machine)
    ensures var t := Wrap(m.d + v);
      Exec(PopIndexOps(v), m) == Machine(15, t, m.ram[15 := t])
  {
    var ops := PopIndexOps(v);
    var t := Wrap(m.d + v);
    assert ExecFrom(ops, 0, m) == ExecFrom(ops, 1, Machine(v, m.d, m.ram));
    assert ExecFrom(ops, 1, Machine(v, m.d, m.ram)) == ExecFrom(ops, 2, Machine(v, t, m.ram));
    assert ExecFrom(ops, 2, Machine(v, t, m.ram)) == ExecFrom(ops, 3, Machine(15, t, m.ram));
    assert ExecFrom(ops, 3, Machine(15, t, m.ram)) == ExecFrom(ops, 4, Machine(15, t, m.ram[15 := t]));
  }

  // Storing D where R15 points: @R15, A=M, M=D.

  const StoreR15Text: seq<string> := ["@R15", "A=M", "M=D"]

  const StoreR15Code: seq<Instruction> :=
    [AInstruction("R15"), CInstruction(Some("A"), "M", None), CInstruction(Some("M"), "D", None)]

  const StoreR15Ops: seq<Op> := [LoadA(15), Compute(true, false, false, MReg), Compute(false, false, true, DReg)]

  lemma StoreR15Assembles()
    ensures Assembles(StoreR15Text, StoreR15Code, StoreR15Ops)
  {
    StoreR15Parses();
    StoreR15Decodes();
  }

  lemma StoreR15Parses()
    ensures ParseLines(StoreR15Text) == Ok(StoreR15Code)
  {
    forall k | 0 <= k < 3
      ensures ParseLine(StoreR15Text[k]) == Ok(Some(StoreR15Code[k]))
    {
      if k == 0 { ParseR15(); } else if k == 1 { ParseAM(); } else { ParseMD(); }
    }
    ParseEach(StoreR15Text, StoreR15Code);
  }

  lemma StoreR15Decodes()
    ensures DecodeAll(StoreR15Code) == Some(StoreR15Ops)
  {
    forall k | 0 <= k < 3
      ensures Decode(StoreR15Code[k]) == Some(StoreR15Ops[k])
    {
      if k == 0 { DecodeR15(); } else if k == 1 { DecodeAM(); } else { DecodeMD(); }
    }
    DecodeEach(StoreR15Code, StoreR15Ops);
  }

  lemma StoreR15Exec(m: Machine)
    ensures var t := Read(m.ram, 15);
      Exec(StoreR15Ops, m) == Machine(t, m.d, m.ram[t := m.d])
  {
    var ops := StoreR15Ops;
    var t := Read(m.ram, 15);
    assert ExecFrom(ops, 0, m) == ExecFrom(ops, 1, Machine(15, m.d, m.ram));
    assert ExecFrom(ops, 1, Machine(15, m.d, m.ram)) == ExecFrom(ops, 2, Machine(t, m.d, m.ram));
  }

  // ---------------------------------------------------------------------
  // push constant i: @i, D=A, then push D

  lemma PushConstantSplit(i: VmParse.UInt32, ns: string)
    ensures Vm.TranslateMemory(VmParse.Push, VmParse.Constant, i, ns).value == LoadBaseText(NatToString(i), true) + PushDText
  {
  }

  lemma PushConstantAssembles(value: string, v: Word)
    requires NoSpace(value) && '/' !in value && Address(value) == Some(v)
    ensures Assembles(LoadBaseText(value, true) + PushDText, LoadBaseCode(value, true) + PushDCode, LoadBaseOps(true, v) + PushDOps)
  {
    LoadBaseAssembles(value, true, v);
    PushDAssembles();
    AssemblesAppend(LoadBaseText(value, true), LoadBaseCode(value, true), LoadBaseOps(true, v), PushDText, PushDCode, PushDOps);
  }

  lemma PushConstantExec(v: Word, m: Machine)
    ensures Exec(LoadBaseOps(true, v) + PushDOps, m) == Pushed(m, v)
  {
    ExecAppend(LoadBaseOps(true, v), PushDOps, m);
    LoadBaseExec(true, v, m);
    PushDExec(Machine(v, v, m.ram));
  }

  /** `push constant i` stores i (the assembler keeps its low 15 bits) at
      RAM[SP] and then increments SP (RAM[0]). */
  lemma PushConstantEffect(i: VmParse.UInt32, ns: string, m: Machine)
    requires i <= IntMax
    ensures Run(Vm.TranslateMemory(VmParse.Push, VmParse.Constant, i, ns).value, m) == Some(Pushed(m, i % 0x8000))
  {
    PushConstantSplit(i, ns);
    PushConstantRuns(i, m);
  }

  lemma PushConstantRuns(i: VmParse.UInt32, m: Machine)
    requires i <= IntMax
    ensures Run(LoadBaseText(NatToString(i), true) + PushDText, m) == Some(Pushed(m, i % 0x8000))
  {
    var value := NatToString(i);
    NatToStringPlain(i);
    AddressLiteral(i);
    PushConstantAssembles(value, i % 0x8000);
    RunAssembled(LoadBaseText(value, true) + PushDText, LoadBaseCode(value, true) + PushDCode, LoadBaseOps(true, i % 0x8000) + PushDOps, m);
    PushConstantExec(i % 0x8000, m);
  }

  // ---------------------------------------------------------------------
  // simplePush and simplePop: local, argument, this, that and temp

  lemma SimplePushSplit(reg: string, exactAddress: bool, i: VmParse.UInt32)
    ensures Vm.SimplePush(reg, exactAddress, i) == LoadBaseText(reg, exactAddress) + PushIndexText(NatToString(i)) + PushDText
  {
  }

  lemma SimplePopSplit(reg: string, exactAddress: bool, i: VmParse.UInt32)
    ensures Vm.SimplePop(reg, exactAddress, i) == LoadBaseText(reg, exactAddress) + PopIndexText(NatToString(i)) + PopDText + StoreR15Text
  {
  }

  lemma SimplePushAssembles(reg: string, exactAddress: bool, i: VmParse.UInt32, r: Word)
    requires NoSpace(reg) && '/' !in reg && Address(reg) == Some(r)
    requires i <= IntMax
    ensures Assembles(Vm.SimplePush(reg, exactAddress, i),
      LoadBaseCode(reg, exactAddress) + PushIndexCode(NatToString(i)) + PushDCode,
      LoadBaseOps(exactAddress, r) + PushIndexOps(i % 0x8000) + PushDOps)
  {
    var value := NatToString(i);
    NatToStringPlain(i);
    AddressLiteral(i);
    LoadBaseAssembles(reg, exactAddress, r);
    PushIndexAssembles(value, i % 0x8000);
    PushDAssembles();
    AssemblesAppend(LoadBaseText(reg, exactAddress), LoadBaseCode(reg, exactAddress), LoadBaseOps(exactAddress, r),
      PushIndexText(value), PushIndexCode(value), PushIndexOps(i % 0x8000));
    AssemblesAppend(LoadBaseText(reg, exactAddress) + PushIndexText(value),
      LoadBaseCode(reg, exactAddress) + PushIndexCode(value), LoadBaseOps(exactAddress, r) + PushIndexOps(i % 0x8000),
      PushDText, PushDCode, PushDOps);
    SimplePushSplit(reg, exactAddress, i);
  }

  lemma SimplePopAssembles(reg: string, exactAddress: bool, i: VmParse.UInt32, r: Word)
    requires NoSpace(reg) && '/' !in reg && Address(reg) == Some(r)
    requires i <= IntMax
    ensures Assembles(Vm.SimplePop(reg, exactAddress, i),
      LoadBaseCode(reg, exactAddress) + PopIndexCode(NatToString(i)) + PopDCode + StoreR15Code,
      LoadBaseOps(exactAddress, r) + PopIndexOps(i % 0x8000) + PopDOps + StoreR15Ops)
  {
    var value := NatToString(i);
    NatToStringPlain(i);
    AddressLiteral(i);
    LoadBaseAssembles(reg, exactAddress, r);
    PopIndexAssembles(value, i % 0x8000);
    PopDAssembles();
    StoreR15Assembles();
    AssemblesAppend(LoadBaseText(reg, exactAddress), LoadBaseCode(reg, exactAddress), LoadBaseOps(exactAddress, r),
      PopIndexText(value), PopIndexCode(value), PopIndexOps(i % 0x8000));
    AssemblesAppend(LoadBaseText(reg, exactAddress) + PopIndexText(value),
      LoadBaseCode(reg, exactAddress) + PopIndexCode(value), LoadBaseOps(exactAddress, r) + PopIndexOps(i % 0x8000),
      PopDText, PopDCode, PopDOps);
    AssemblesAppend(LoadBaseText(reg, exactAddress) + PopIndexText(value) + PopDText,
      LoadBaseCode(reg, exactAddress) + PopIndexCode(value) + PopDCode, LoadBaseOps(exactAddress, r) + PopIndexOps(i % 0x8000) + PopDOps,
      StoreR15Text, StoreR15Code, StoreR15Ops);
    SimplePopSplit(reg, exactAddress, i);
  }

  lemma SimplePushExec(exactAddress: bool, r: Word, v: Word, m: Machine)
    ensures Exec(LoadBaseOps(exactAddress, r) + PushIndexOps(v) + PushDOps, m)
      == Pushed(m, Read(m.ram, Wrap(Base(exactAddress, r, m) + v)))
  {
    var m1 := Machine(r, Base(exactAddress, r, m), m.ram);
    var address := Wrap(m1.d + v);
    var m2 := Machine(address, Read(m.ram, address), m.ram);
    ExecAppend(LoadBaseOps(exactAddress, r) + PushIndexOps(v), PushDOps, m);
    ExecAppend(LoadBaseOps(exactAddress, r), PushIndexOps(v), m);
    LoadBaseExec(exactAddress, r, m);
    PushIndexExec(v, m1);
    PushDExec(m2);
  }

  /** The machine after simplePop with target address t: R15 holds t, SP
      is decremented, and the word SP then points at is stored at t. */
  function Popped(m: Machine, t: Word): Machine
  {
    var sp := Wrap(Read(m.ram, 0) - 1);
    var ram := m.ram[15 := t][0 := sp];
    var top := Read(ram, sp);
    Machine(t, top, ram[t := top])
  }

  /** When the new SP is neither SP's own register nor the scratch
      register R15, the word stored at t is the old top of the stack,
      RAM[SP - 1]. */
  lemma PoppedStack(m: Machine, t: Word)
    requires Wrap(Read(m.ram, 0) - 1) != 0 && Wrap(Read(m.ram, 0) - 1) != 15
    ensures var sp := Wrap(Read(m.ram, 0) - 1); var top := Read(m.ram, sp);
      Popped(m, t) == Machine(t, top, m.ram[15 := t][0 := sp][t := top])
  {
  }

  lemma SimplePopExec(exactAddress: bool, r: Word, v: Word, m: Machine)
    ensures Exec(LoadBaseOps(exactAddress, r) + PopIndexOps(v) + PopDOps + StoreR15Ops, m)
      == Popped(m, Wrap(Base(exactAddress, r, m) + v))
  {
    var m1 := Machine(r, Base(exactAddress, r, m), m.ram);
    var t := Wrap(m1.d + v);
    var m2 := Machine(15, t, m.ram[15 := t]);
    var m3 := PoppedD(m2);
    ExecAppend(LoadBaseOps(exactAddress, r) + PopIndexOps(v) + PopDOps, StoreR15Ops, m);
    ExecAppend(LoadBaseOps(exactAddress, r) + PopIndexOps(v), PopDOps, m);
    ExecAppend(LoadBaseOps(exactAddress, r), PopIndexOps(v), m);
    LoadBaseExec(exactAddress, r, m);
    PopIndexExec(v, m1);
    PopDExec(m2);
    StoreR15Exec(m3);
  }

  /** The register a segment's base is kept in: LCL, ARG, THIS, THAT are
      RAM[1] to RAM[4]; temp starts at the fixed address 5. */
  function SegmentRegister(seg: VmParse.MemorySegment): Word
    requires Vm.Indirect(seg) || seg == VmParse.Temp
  {
    match seg
    case Local => 1 case Argument => 2 case This => 3 case That => 4 case _ => 5
  }

  /** The RAM address `seg i` names for these segments (the assembler keeps
      the low 15 bits of i). */
  function SegmentAddress(seg: VmParse.MemorySegment, i: VmParse.UInt32, m: Machine): Word
    requires Vm.Indirect(seg) || seg == VmParse.Temp
  {
    Wrap(Base(seg == VmParse.Temp, SegmentRegister(seg), m) + i % 0x8000)
  }

  /** The name simplePush and simplePop are given for these segments: the
      base register, or the literal 5 for temp. */
  function SegmentBaseName(seg: VmParse.MemorySegment): string
    requires Vm.Indirect(seg) || seg == VmParse.Temp
  {
    if seg == VmParse.Temp then "5" else Vm.BaseRegister(seg)
  }

  /** The facts simplePush and simplePop need of a base name: no blank, no
      comment, and the address the assembler gives it. */
  lemma AddressBase(reg: string, r: Word)
    requires (reg == "LCL" && r == 1) || (reg == "ARG" && r == 2) || (reg == "THIS" && r == 3) || (reg == "THAT" && r == 4)
    ensures NoSpace(reg) && '/' !in reg && Address(reg) == Some(r)
  {
  }

  /** simplePush(reg, exact, i) pushes the word at base + (i mod 2^15). */
  lemma SimplePushRuns(reg: string, exactAddress: bool, i: VmParse.UInt32, r: Word, m: Machine)
    requires NoSpace(reg) && '/' !in reg && Address(reg) == Some(r)
    requires i <= IntMax
    ensures Run(Vm.SimplePush(reg, exactAddress, i), m) == Some(Pushed(m, Read(m.ram, Wrap(Base(exactAddress, r, m) + i % 0x8000))))
  {
    SimplePushAssembles(reg, exactAddress, i, r);
    RunAssembled(Vm.SimplePush(reg, exactAddress, i), LoadBaseCode(reg, exactAddress) + PushIndexCode(NatToString(i)) + PushDCode,
      LoadBaseOps(exactAddress, r) + PushIndexOps(i % 0x8000) + PushDOps, m);
    SimplePushExec(exactAddress, r, i % 0x8000, m);
  }

  /** simplePop(reg, exact, i) pops into the word at base + (i mod 2^15). */
  lemma SimplePopRuns(reg: string, exactAddress: bool, i: VmParse.UInt32, r: Word, m: Machine)
    requires NoSpace(reg) && '/' !in reg && Address(reg) == Some(r)
    requires i <= IntMax
    ensures Run(Vm.SimplePop(reg, exactAddress, i), m) == Some(Popped(m, Wrap(Base(exactAddress, r, m) + i % 0x8000)))
  {
    SimplePopAssembles(reg, exactAddress, i, r);
    RunAssembled(Vm.SimplePop(reg, exactAddress, i), LoadBaseCode(reg, exactAddress) + PopIndexCode(NatToString(i)) + PopDCode + StoreR15Code,
      LoadBaseOps(exactAddress, r) + PopIndexOps(i % 0x8000) + PopDOps + StoreR15Ops, m);
    SimplePopExec(exactAddress, r, i % 0x8000, m);
  }

  /** Each base name assembles to its segment's register. */
  lemma SegmentBaseAddress(seg: VmParse.MemorySegment)
    requires Vm.Indirect(seg) || seg == VmParse.Temp
    ensures var reg := SegmentBaseName(seg);
      NoSpace(reg) && '/' !in reg && Address(reg) == Some(SegmentRegister(seg))
  {
    var reg := SegmentBaseName(seg);
    match seg
    case Local => AddressBase(reg, 1);
    case Argument => AddressBase(reg, 2);
    case This => AddressBase(reg, 3);
    case That => AddressBase(reg, 4);
    case Temp =>
      AddressLiteral(5);
      assert NatToString(5) == reg;
  }

  /** These segments are translated by simplePush and simplePop. */
  lemma SegmentTranslation(c: VmParse.MemoryCommand, seg: VmParse.MemorySegment, i: VmParse.UInt32, ns: string)
    requires Vm.Indirect(seg) || seg == VmParse.Temp
    ensures Vm.TranslateMemory(c, seg, i, ns) ==
      Ok(if c == VmParse.Pop then Vm.SimplePop(SegmentBaseName(seg), seg == VmParse.Temp, i)
         else Vm.SimplePush(SegmentBaseName(seg), seg == VmParse.Temp, i))
  {
  }

  /** `push seg i` for local, argument, this, that and temp pushes the word
      at the segment's base plus i mod 2^15: RAM[RAM[LCL] + i] for local,
      and so on, and RAM[5 + i] for temp, for i below 2^15. PushedStack says when SP grows by one. */
  lemma PushSegmentEffect(seg: VmParse.MemorySegment, i: VmParse.UInt32, ns: string, m: Machine)
    requires Vm.Indirect(seg) || seg == VmParse.Temp
    requires i <= IntMax
    ensures Run(Vm.TranslateMemory(VmParse.Push, seg, i, ns).value, m) == Some(Pushed(m, Read(m.ram, SegmentAddress(seg, i, m))))
  {
    PushSegmentVia(seg, i, ns, m, Vm.TranslateMemory(VmParse.Push, seg, i, ns).value, SegmentAddress(seg, i, m));
  }

  /** `pop seg i` for local, argument, this, that and temp leaves Popped
      with the segment's base plus i mod 2^15 as target; PoppedStack says when that
      is "SP one lower, R15 holding the target and the old top stored". */
  lemma PopSegmentEffect(seg: VmParse.MemorySegment, i: VmParse.UInt32, ns: string, m: Machine)
    requires Vm.Indirect(seg) || seg == VmParse.Temp
    requires i <= IntMax
    ensures Run(Vm.TranslateMemory(VmParse.Pop, seg, i, ns).value, m) == Some(Popped(m, SegmentAddress(seg, i, m)))
  {
    PopSegmentVia(seg, i, ns, m, Vm.TranslateMemory(VmParse.Pop, seg, i, ns).value, SegmentAddress(seg, i, m));
  }

  /** PushSegmentEffect on the text and the address it is about. */
  lemma PushSegmentVia(seg: VmParse.MemorySegment, i: VmParse.UInt32, ns: string, m: Machine, text: seq<string>, t: Word)
    requires Vm.Indirect(seg) || seg == VmParse.Temp
    requires i <= IntMax
    requires Vm.TranslateMemory(VmParse.Push, seg, i, ns).Ok? && text == Vm.TranslateMemory(VmParse.Push, seg, i, ns).value
    requires t == SegmentAddress(seg, i, m)
    ensures Run(text, m) == Some(Pushed(m, Read(m.ram, t)))
  {
    var reg := SegmentBaseName(seg);
    assert text == Vm.SimplePush(reg, seg == VmParse.Temp, i) by {
      SegmentTranslation(VmParse.Push, seg, i, ns);
    }
    assert NoSpace(reg) && '/' !in reg && Address(reg) == Some(SegmentRegister(seg)) by {
      SegmentBaseAddress(seg);
    }
    PushRunsAs(text, reg, seg == VmParse.Temp, i, SegmentRegister(seg), t, m);
  }

  /** PopSegmentEffect on the text and the address it is about. */
  lemma PopSegmentVia(seg: VmParse.MemorySegment, i: VmParse.UInt32, ns: string, m: Machine, text: seq<string>, t: Word)
    requires Vm.Indirect(seg) || seg == VmParse.Temp
    requires i <= IntMax
    requires Vm.TranslateMemory(VmParse.Pop, seg, i, ns).Ok? && text == Vm.TranslateMemory(VmParse.Pop, seg, i, ns).value
    requires t == SegmentAddress(seg, i, m)
    ensures Run(text, m) == Some(Popped(m, t))
  {
    var reg := SegmentBaseName(seg);
    assert text == Vm.SimplePop(reg, seg == VmParse.Temp, i) by {
      SegmentTranslation(VmParse.Pop, seg, i, ns);
    }
    assert NoSpace(reg) && '/' !in reg && Address(reg) == Some(SegmentRegister(seg)) by {
      SegmentBaseAddress(seg);
    }
    PopRunsAs(text, reg, seg == VmParse.Temp, i, SegmentRegister(seg), t, m);
  }

  /** SimplePushRuns for a text and an address already known to be those
      of simplePush. */
  lemma PushRunsAs(text: seq<string>, reg: string, exactAddress: bool, i: VmParse.UInt32, r: Word, t: Word, m: Machine)
    requires NoSpace(reg) && '/' !in reg && Address(reg) == Some(r) && i <= IntMax
    requires text == Vm.SimplePush(reg, exactAddress, i) && t == Wrap(Base(exactAddress, r, m) + i % 0x8000)
    ensures Run(text, m) == Some(Pushed(m, Read(m.ram, t)))
  {
    SimplePushRuns(reg, exactAddress, i, r, m);
  }

  /** SimplePopRuns for a text and an address already known to be those
      of simplePop. */
  lemma PopRunsAs(text: seq<string>, reg: string, exactAddress: bool, i: VmParse.UInt32, r: Word, t: Word, m: Machine)
    requires NoSpace(reg) && '/' !in reg && Address(reg) == Some(r) && i <= IntMax
    requires text == Vm.SimplePop(reg, exactAddress, i) && t == Wrap(Base(exactAddress, r, m) + i % 0x8000)
    ensures Run(text, m) == Some(Popped(m, t))
  {
    SimplePopRuns(reg, exactAddress, i, r, m);
  }

  // ---------------------------------------------------------------------
  // add: the last line of its translation is not in the assembler's table

  /** The translation of `add` ends with M=M+D, whose computation the comp
      table spells D+M; the assembler rejects any file holding it. */
  lemma AddRejected(n: VmParse.UInt32, ns: string)
    ensures Assemble.Assemble(Vm.TranslateLogic(VmParse.Add, n, ns).0).Err?
  {
    var lines := Vm.TranslateLogic(VmParse.Add, n, ns).0;
    var inst := CInstruction(Some("M"), "M+D", None);
    ParseMPlusD(lines[5]);
    MPlusDInvalid(inst);
    AssembleRejectsLine(lines, 5, inst);
  }

  lemma ParseMPlusD(s: string)
    requires s == "M=M+D"
    ensures ParseLine(s) == Ok(Some(CInstruction(Some("M"), "M+D", None)))
  {
    ParseAssignLine(s, 1);
    assert s[..1] == "M" && s[2..] == "M+D";
  }

  lemma MPlusDInvalid(inst: Instruction)
    requires inst == CInstruction(Some("M"), "M+D", None)
    ensures "M+D" !in CompTable && "D+M" in CompTable
    ensures EncodeC(inst.dest, inst.comp, inst.jump) == Err(InvalidComp("M+D"))
  {
    EncodeCErrors(inst.dest, inst.comp, inst.jump);
  }
}
