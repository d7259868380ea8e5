/** The VM code generator (src/vm/vm.cpp): every bytecode becomes a fixed
    list of Hack assembly lines, with a label counter threaded through the
    comparisons and static variables qualified by a namespace. */
module Vm {
  import opened Results
  import opened Text
  import opened VmParse

  /** `currentLabel++` on an `unsigned int`. */
  function Bump(n: UInt32): UInt32
  {
    (n + 1) % UIntLimit
  }

  predicate IsComparison(c: LogicCommand) { c == Eq || c == Gt || c == Lt }

  /** The commands whose translation increments the label counter: the
      comparisons, and also `and` and `or`. */
  predicate BumpsLabel(c: LogicCommand) { IsComparison(c) || c == And || c == Or }

  /** A comparison: pop y, compare x - y with zero, leave -1 (true) or 0
      (false) in x's place. The jump names the label with the namespace in
      front; the label line declares it without. */
  function ComparisonCode(op: string, jump: string, counter: UInt32, ns: string): seq<string>
  {
    ["@SP", "M=M-1", "A=M", "D=M",
     "A=A-1", "D=M-D", "M=-1", "@" + ns + "_" + op + "label_" + NatToString(counter),
     "D;" + jump, "@SP", "A=M-1", "M=0", "(" + op + "label_" + NatToString(counter) + ")"]
  }

  /** translateToStrings for a logic bytecode: the lines and the counter
      after them. */
  function TranslateLogic(c: LogicCommand, currentLabel: UInt32, ns: string): (seq<string>, UInt32)
  {
    match c
    case Add => (["@SP", "M=M-1", "A=M", "D=M", "A=A-1", "M=M+D"], currentLabel)
    case Sub => (["@SP", "M=M-1", "A=M", "D=M", "A=A-1", "M=M-D"], currentLabel)
    case Neg => (["@SP", "A=M-1", "M=-M"], currentLabel)
    case Eq => (ComparisonCode("eq", "JEQ", Bump(currentLabel), ns), Bump(currentLabel))
    case Gt => (ComparisonCode("gt", "JGT", Bump(currentLabel), ns), Bump(currentLabel))
    case Lt => (ComparisonCode("lt", "JLT", Bump(currentLabel), ns), Bump(currentLabel))
    case And => (["@SP", "M=M-1", "A=M", "D=M", "A=A-1", "M=D&M"], Bump(currentLabel))
    case Or => (["@SP", "M=M-1", "A=M", "D=M", "A=A-1", "M=D|M"], Bump(currentLabel))
    case Not => (["@SP", "A=M-1", "M=!M"], currentLabel)
  }

  /** The jump mnemonic of a comparison. */
  function ComparisonJump(c: LogicCommand): string
  {
    match c
    case Eq => "JEQ" case Gt => "JGT" case _ => "JLT"
  }

  /** The counter goes up by exactly one on eq, gt, lt, and, or (wrapping
      at 2^32) and is unchanged otherwise; comparisons emit 13 lines,
      add/sub/and/or 6 and neg/not 3. */
  lemma LogicCounterAndLength(c: LogicCommand, n: UInt32, ns: string)
    ensures TranslateLogic(c, n, ns).1 == if BumpsLabel(c) then Bump(n) else n
    ensures |TranslateLogic(c, n, ns).0| == if IsComparison(c) then 13 else if c == Neg || c == Not then 3 else 6
  {
  }

  /** Translations other than comparisons depend neither on the counter nor
      on the namespace. */
  lemma LogicFixed(c: LogicCommand, n: UInt32, m: UInt32, ns: string, ns': string)
    requires !IsComparison(c)
    ensures TranslateLogic(c, n, ns).0 == TranslateLogic(c, m, ns').0
  {
  }

  /** With the incremented counter k, line 8 of a comparison jumps to
      `<ns>_<op>label_<k>`, line 9 is the conditional jump on D and the last
      line declares `<op>label_<k>`. */
  lemma ComparisonShape(c: LogicCommand, n: UInt32, ns: string)
    requires IsComparison(c)
    ensures var (lines, k) := TranslateLogic(c, n, ns);
      var name := LogicName(c) + "label_" + NatToString(k);
      k == Bump(n) && |lines| == 13
      && lines[7] == "@" + ns + "_" + name
      && lines[8] == "D;" + ComparisonJump(c)
      && lines[12] == "(" + name + ")"
  {
  }

  /** The symbol a comparison jumps to is never the label it declares: the
      jump target carries the namespace and an underscore in front. */
  lemma ComparisonLabelMismatch(c: LogicCommand, n: UInt32, ns: string)
    requires IsComparison(c)
    ensures var lines := TranslateLogic(c, n, ns).0;
      var target := lines[7][1..];
      var declared := lines[12][1..|lines[12]| - 1];
      target == ns + "_" + declared && target != declared
  {
    ComparisonShape(c, n, ns);
    var lines := TranslateLogic(c, n, ns).0;
    var name := LogicName(c) + "label_" + NatToString(Bump(n));
    assert lines[7][1..] == ns + "_" + name;
    assert lines[12][1..|lines[12]| - 1] == name;
  }

  // ---------------------------------------------------------------------
  // simplePop, simplePush and the memory translator

  /** Pop into base + value, the base being RAM[reg] or, when `exactAddress`,
      the number `reg` itself; R15 holds the target address meanwhile. */
  function SimplePop(reg: string, exactAddress: bool, value: UInt32): seq<string>
  {
    ["@" + reg, if exactAddress then "D=A" else "D=M", "@" + NatToString(value),
     "D=D+A", "@R15", "M=D", "@SP", "M=M-1", "A=M", "D=M",
     "@R15", "A=M", "M=D"]
  }

  /** Push the word at base + value, the base as in SimplePop. */
  function SimplePush(reg: string, exactAddress: bool, value: UInt32): seq<string>
  {
    ["@" + reg, if exactAddress then "D=A" else "D=M", "@" + NatToString(value),
     "A=D+A", "D=M", "@SP", "A=M", "M=D", "@SP", "M=M+1"]
  }

  /** The assembly symbol of static variable `value`. */
  function StaticSymbol(ns: string, value: UInt32): string
  {
    ns + "." + NatToString(value)
  }

  /** `3 + value` in `unsigned int` arithmetic. */
  function PointerAddress(value: UInt32): UInt32
  {
    (3 + value) % UIntLimit
  }

  /** The base register of the four segments addressed through a pointer. */
  function BaseRegister(seg: MemorySegment): string
  {
    match seg
    case Local => "LCL" case Argument => "ARG" case This => "THIS" case _ => "THAT"
  }

  predicate Indirect(seg: MemorySegment) { seg == Local || seg == Argument || seg == This || seg == That }

  /** translateToStrings for a memory bytecode. */
  function TranslateMemory(c: MemoryCommand, seg: MemorySegment, value: UInt32, ns: string): Result<seq<string>>
  {
    match c
    case Pop =>
      (match seg
       case Local => Ok(SimplePop("LCL", false, value))
       case Argument => Ok(SimplePop("ARG", false, value))
       case This => Ok(SimplePop("THIS", false, value))
       case That => Ok(SimplePop("THAT", false, value))
       case Constant => Err(CannotPopConstant)
       case Static => Ok(["@SP", "M=M-1", "A=M", "D=M", "@" + StaticSymbol(ns, value), "M=D"])
       case Temp => Ok(SimplePop("5", true, value))
       case Pointer => Ok(["@SP", "M=M-1", "A=M", "D=M", "@" + NatToString(PointerAddress(value)), "M=D"]))
    case Push =>
      match seg
      case Local => Ok(SimplePush("LCL", false, value))
      case Argument => Ok(SimplePush("ARG", false, value))
      case This => Ok(SimplePush("THIS", false, value))
      case That => Ok(SimplePush("THAT", false, value))
      case Constant => Ok(["@" + NatToString(value), "D=A", "@SP", "A=M", "M=D", "@SP", "M=M+1"])
      case Static => Ok(["@" + StaticSymbol(ns, value), "D=M", "@SP", "M=M+1", "A=M-1", "M=D"])
      case Temp => Ok(SimplePush("5", true, value))
      case Pointer => Ok(["@" + NatToString(PointerAddress(value)), "D=M", "@SP", "M=M+1", "A=M-1", "M=D"])
  }

  /** Only `pop constant` fails. */
  lemma MemoryErrors(c: MemoryCommand, seg: MemorySegment, value: UInt32, ns: string)
    ensures TranslateMemory(c, seg, value, ns).Err? <==> c == Pop && seg == Constant
    ensures TranslateMemory(c, seg, value, ns).Err? ==> TranslateMemory(c, seg, value, ns).error == CannotPopConstant
  {
  }

  /** How each segment is addressed: local/argument/this/that through the
      base register read with D=M, temp from the literal base 5 read with
      D=A, static through the symbol `<ns>.<i>`, pointer at the literal
      address 3 + i; push constant loads the literal i. */
  lemma SegmentAddressing(c: MemoryCommand, seg: MemorySegment, value: UInt32, ns: string)
    requires !(c == Pop && seg == Constant)
    ensures var lines := TranslateMemory(c, seg, value, ns).value;
      (Indirect(seg) ==>
        lines == (if c == Pop then SimplePop(BaseRegister(seg), false, value) else SimplePush(BaseRegister(seg), false, value))
        && lines[0] == "@" + BaseRegister(seg) && lines[1] == "D=M" && lines[2] == "@" + NatToString(value))
      && (seg == Temp ==>
        lines == (if c == Pop then SimplePop("5", true, value) else SimplePush("5", true, value))
        && lines[0] == "@5" && lines[1] == "D=A" && lines[2] == "@" + NatToString(value))
      && (seg == Static ==> lines[if c == Pop then 4 else 0] == "@" + ns + "." + NatToString(value))
      && (seg == Pointer ==> lines[if c == Pop then 4 else 0] == "@" + NatToString((3 + value) % UIntLimit))
      && (seg == Constant ==> lines == ["@" + NatToString(value), "D=A", "@SP", "A=M", "M=D", "@SP", "M=M+1"])
      && (seg != Static ==> TranslateMemory(c, seg, value, ns) == TranslateMemory(c, seg, value, ""))
  {
  }

  // ---------------------------------------------------------------------
  // translateToStrings over a list of bytecodes

  /** The counter after one bytecode. */
  function StepLabel(b: Bytecode, counter: UInt32): UInt32
  {
    if b.LogicBytecode? && BumpsLabel(b.operation) then Bump(counter) else counter
  }

  /** One bytecode's lines and the counter after it. */
  function TranslateOne(b: Bytecode, counter: UInt32, ns: string): (r: Result<(seq<string>, UInt32)>)
    ensures r.Ok? ==> r.value.1 == StepLabel(b, counter)
  {
    match b
    case LogicBytecode(c) =>
      LogicCounterAndLength(c, counter, ns);
      Ok(TranslateLogic(c, counter, ns))
    case MemoryBytecode(c, seg, value) =>
      match TranslateMemory(c, seg, value, ns)
      case Err(e) => Err(e)
      case Ok(lines) => Ok((lines, counter))
  }

  /** The translations of the bytecodes one after another, the counter
      threaded through; the first failure is the result. */
  function TranslatedFrom(bytecodes: seq<Bytecode>, counter: UInt32, ns: string): Result<seq<string>>
  {
    if bytecodes == [] then Ok([])
    else
      match TranslateOne(bytecodes[0], counter, ns)
      case Err(e) => Err(e)
      case Ok((lines, counter')) => Prepend(lines, TranslatedFrom(bytecodes[1..], counter', ns))
  }

  /** The counter after a run of bytecodes. */
  function LabelAfter(bytecodes: seq<Bytecode>, counter: UInt32): UInt32
  {
    if bytecodes == [] then counter else LabelAfter(bytecodes[1..], StepLabel(bytecodes[0], counter))
  }

  /** translateToStrings over the list; the counter starts at 0. */
  method TranslateToStrings(bytecodes: seq<Bytecode>, ns: string) returns (r: Result<seq<string>>)
    ensures r == TranslatedFrom(bytecodes, 0, ns)
  {
    var currentLabel: UInt32 := 0;
    var result: seq<string> := [];
    var i := 0;
    assert bytecodes[0..] == bytecodes;
    PrependNothing(TranslatedFrom(bytecodes, 0, ns));
    while i < |bytecodes|
      invariant 0 <= i <= |bytecodes|
      invariant TranslatedFrom(bytecodes, 0, ns) == Prepend(result, TranslatedFrom(bytecodes[i..], currentLabel, ns))
      decreases |bytecodes| - i
    {
      assert bytecodes[i..][1..] == bytecodes[i + 1..];
      match bytecodes[i] {
        case LogicBytecode(c) =>
          var (bStrings, nextLabel) := TranslateLogic(c, currentLabel, ns);
          PrependPrepend(result, bStrings, TranslatedFrom(bytecodes[i + 1..], nextLabel, ns));
          result := result + bStrings;
          currentLabel := nextLabel;
        case MemoryBytecode(c, seg, value) =>
          match TranslateMemory(c, seg, value, ns) {
            case Err(e) =>
              return Err(e);
            case Ok(bStrings) =>
              PrependPrepend(result, bStrings, TranslatedFrom(bytecodes[i + 1..], currentLabel, ns));
              result := result + bStrings;
          }
      }
      i := i + 1;
    }
    assert bytecodes[i..] == [];
    assert result + [] == result;
    r := Ok(result);
  }

  /** Translating a concatenation translates the first part, then the
      second from the counter the first part left. */
  lemma {:induction false} TranslatedAppend(a: seq<Bytecode>, b: seq<Bytecode>, counter: UInt32, ns: string)
    ensures TranslatedFrom(a + b, counter, ns) ==
      match TranslatedFrom(a, counter, ns)
      case Err(e) => Err(e)
      case Ok(lines) => Prepend(lines, TranslatedFrom(b, LabelAfter(a, counter), ns))
  {
    if a == [] {
      assert a + b == b;
      PrependNothing(TranslatedFrom(b, counter, ns));
    } else {
      assert (a + b)[0] == a[0] && (a + b)[1..] == a[1..] + b;
      var one := TranslateOne(a[0], counter, ns);
      if one.Ok? {
        var (lines, next) := one.value;
        TranslatedAppend(a[1..], b, next, ns);
        match TranslatedFrom(a[1..], next, ns)
        case Err(_) =>
        case Ok(rest) => PrependPrepend(lines, rest, TranslatedFrom(b, LabelAfter(a[1..], next), ns));
      }
    }
  }

  predicate IsPopConstant(b: Bytecode) { b.MemoryBytecode? && b.command == Pop && b.segment == Constant }

  /** The translation succeeds exactly when no bytecode is `pop constant`. */
  lemma {:induction false} TranslatedOk(bytecodes: seq<Bytecode>, counter: UInt32, ns: string)
    ensures TranslatedFrom(bytecodes, counter, ns).Ok? <==> forall i :: 0 <= i < |bytecodes| ==> !IsPopConstant(bytecodes[i])
  {
    if bytecodes != [] {
      var b := bytecodes[0];
      if b.MemoryBytecode? {
        MemoryErrors(b.command, b.segment, b.value, ns);
      }
      TranslatedOk(bytecodes[1..], StepLabel(b, counter), ns);
      assert forall i :: 1 <= i < |bytecodes| ==> bytecodes[i] == bytecodes[1..][i - 1];
    }
  }

  /** The number of counter increments in a run of bytecodes. */
  function BumpCount(bytecodes: seq<Bytecode>): nat
  {
    if bytecodes == [] then 0
    else (if StepLabel(bytecodes[0], 0) == 1 then 1 else 0) + BumpCount(bytecodes[1..])
  }

  /** The counter after a run is the starting value plus the number of
      increments, modulo 2^32. */
  lemma {:induction false} LabelAfterCount(bytecodes: seq<Bytecode>, counter: UInt32)
    ensures LabelAfter(bytecodes, counter) == (counter + BumpCount(bytecodes)) % UIntLimit
  {
    if bytecodes != [] {
      var next := StepLabel(bytecodes[0], counter);
      LabelAfterCount(bytecodes[1..], next);
      var k := BumpCount(bytecodes[1..]);
      if next != counter {
        assert next == (counter + 1) % UIntLimit;
        ModAddShift(counter + 1, k);
      }
    }
  }

  lemma ModAddShift(x: nat, k: nat)
    ensures ((x % UIntLimit) + k) % UIntLimit == (x + k) % UIntLimit
  {
    var q := x / UIntLimit;
    assert x == q * UIntLimit + x % UIntLimit;
    assert x + k == q * UIntLimit + (x % UIntLimit + k);
    ModMultipleShift(x % UIntLimit + k, q);
  }

  lemma ModMultipleShift(y: nat, q: nat)
    ensures (q * UIntLimit + y) % UIntLimit == y % UIntLimit
  {
    if q > 0 {
      ModMultipleShift(y, q - 1);
      assert q * UIntLimit + y == (q - 1) * UIntLimit + y + UIntLimit;
    }
  }

  /** The counter numbers the comparisons of a run use, in order. */
  function ComparisonLabels(bytecodes: seq<Bytecode>, counter: UInt32): seq<nat>
  {
    if bytecodes == [] then []
    else
      var next := StepLabel(bytecodes[0], counter);
      (if bytecodes[0].LogicBytecode? && IsComparison(bytecodes[0].operation) then [next as nat] else [])
      + ComparisonLabels(bytecodes[1..], next)
  }

  predicate Within(labels: seq<nat>, low: int, high: int)
  {
    forall i :: 0 <= i < |labels| ==> low < labels[i] <= high
  }

  predicate StrictlyIncreasing(labels: seq<nat>)
  {
    forall i, j :: 0 <= i < j < |labels| ==> labels[i] < labels[j]
  }

  /** When the counter does not wrap, the comparisons of a run use label
      numbers that strictly increase, all above the starting value and at
      most the final one; so no two comparisons share a label. */
  lemma {:induction false} ComparisonLabelsIncrease(bytecodes: seq<Bytecode>, counter: UInt32)
    requires counter + BumpCount(bytecodes) < UIntLimit
    ensures Within(ComparisonLabels(bytecodes, counter), counter, counter + BumpCount(bytecodes))
    ensures StrictlyIncreasing(ComparisonLabels(bytecodes, counter))
  {
    if bytecodes != [] {
      var b := bytecodes[0];
      var next := StepLabel(b, counter);
      var bump := if StepLabel(b, 0) == 1 then 1 else 0;
      assert BumpCount(bytecodes) == bump + BumpCount(bytecodes[1..]);
      assert next == counter + bump;
      ComparisonLabelsIncrease(bytecodes[1..], next);
      var rest := ComparisonLabels(bytecodes[1..], next);
      var head: seq<nat> := if b.LogicBytecode? && IsComparison(b.operation) then [next as nat] else [];
      assert ComparisonLabels(bytecodes, counter) == head + rest;
      assert head == [] || (head == [next as nat] && bump == 1);
      ConsWithin(head, rest, counter, next, counter + BumpCount(bytecodes));
    }
  }

  lemma ConsWithin(head: seq<nat>, rest: seq<nat>, low: int, next: int, high: int)
    requires head == [] || (head == [next] && next == low + 1)
    requires low <= next
    requires Within(rest, next, high) && StrictlyIncreasing(rest)
    requires head != [] ==> next <= high
    ensures Within(head + rest, low, high) && StrictlyIncreasing(head + rest)
  {
    var labels := head + rest;
    forall i | 0 <= i < |labels|
      ensures low < labels[i] <= high
    {
      if i >= |head| {
        assert labels[i] == rest[i - |head|];
      }
    }
    forall i, j | 0 <= i < j < |labels|
      ensures labels[i] < labels[j]
    {
      assert labels[j] == rest[j - |head|];
      if i >= |head| {
        assert labels[i] == rest[i - |head|];
      }
    }
  }

  // ---------------------------------------------------------------------
  // Where the comparisons' labels land in the output

  /** The counter after a concatenation is the counter after the second
      part, started from where the first part left it. */
  lemma {:induction false} LabelAfterAppend(a: seq<Bytecode>, b: seq<Bytecode>, counter: UInt32)
    ensures LabelAfter(a + b, counter) == LabelAfter(b, LabelAfter(a, counter))
  {
    if a == [] {
      assert a + b == b;
    } else {
      assert (a + b)[0] == a[0] && (a + b)[1..] == a[1..] + b;
      LabelAfterAppend(a[1..], b, StepLabel(a[0], counter));
    }
  }

  /** The label numbers of a concatenation are those of the first part,
      then those of the second from the counter the first part left. */
  lemma {:induction false} ComparisonLabelsAppend(a: seq<Bytecode>, b: seq<Bytecode>, counter: UInt32)
    ensures ComparisonLabels(a + b, counter) == ComparisonLabels(a, counter) + ComparisonLabels(b, LabelAfter(a, counter))
  {
    if a == [] {
      assert a + b == b;
    } else {
      assert (a + b)[0] == a[0] && (a + b)[1..] == a[1..] + b;
      var next := StepLabel(a[0], counter);
      ComparisonLabelsAppend(a[1..], b, next);
      var head: seq<nat> := if a[0].LogicBytecode? && IsComparison(a[0].operation) then [next as nat] else [];
      assert ComparisonLabels(a + b, counter) == head + ComparisonLabels(a[1..] + b, next);
      assert ComparisonLabels(a, counter) == head + ComparisonLabels(a[1..], next);
    }
  }

  /** A comparison's translation is ComparisonCode with its own mnemonic,
      its jump and the incremented counter. */
  lemma ComparisonLines(c: LogicCommand, n: UInt32, ns: string)
    requires IsComparison(c)
    ensures TranslateLogic(c, n, ns) == (ComparisonCode(LogicName(c), ComparisonJump(c), Bump(n), ns), Bump(n))
  {
  }

  /** A run of bytecodes that starts with a comparison translates to that
      comparison's code followed by the rest from the incremented counter. */
  lemma ComparisonFirst(bytecodes: seq<Bytecode>, counter: UInt32, ns: string)
    requires |bytecodes| > 0 && bytecodes[0].LogicBytecode? && IsComparison(bytecodes[0].operation)
    ensures var c := bytecodes[0].operation;
      TranslatedFrom(bytecodes, counter, ns)
      == Prepend(ComparisonCode(LogicName(c), ComparisonJump(c), Bump(counter), ns), TranslatedFrom(bytecodes[1..], Bump(counter), ns))
  {
    ComparisonLines(bytecodes[0].operation, counter, ns);
  }

  lemma SliceOfMiddle(out: seq<string>, a: seq<string>, b: seq<string>, r: seq<string>)
    requires out == a + (b + r)
    ensures |a| + |b| <= |out| && out[|a|..|a| + |b|] == b
  {
    assert out[|a|..|a| + |b|] == (b + r)[..|b|];
  }

  /** In a successful translation, the comparison at index i emits
      ComparisonCode with the counter the earlier bytecodes leave,
      incremented, starting right after the earlier bytecodes' lines. */
  lemma ComparisonAt(bytecodes: seq<Bytecode>, counter: UInt32, ns: string, i: nat)
    requires TranslatedFrom(bytecodes, counter, ns).Ok?
    requires i < |bytecodes| && bytecodes[i].LogicBytecode? && IsComparison(bytecodes[i].operation)
    ensures TranslatedFrom(bytecodes[..i], counter, ns).Ok?
    ensures var out := TranslatedFrom(bytecodes, counter, ns).value;
      var off := |TranslatedFrom(bytecodes[..i], counter, ns).value|;
      var c := bytecodes[i].operation;
      off + 13 <= |out|
      && out[off..off + 13] == ComparisonCode(LogicName(c), ComparisonJump(c), Bump(LabelAfter(bytecodes[..i], counter)), ns)
  {
    var pre := bytecodes[..i];
    var post := bytecodes[i..];
    assert bytecodes == pre + post;
    TranslatedAppend(pre, post, counter, ns);
    var after := LabelAfter(pre, counter);
    var c := bytecodes[i].operation;
    var code := ComparisonCode(LogicName(c), ComparisonJump(c), Bump(after), ns);
    assert post[0] == bytecodes[i] && post[1..] == bytecodes[i + 1..];
    ComparisonFirst(post, after, ns);
    var rest := TranslatedFrom(bytecodes[i + 1..], Bump(after), ns);
    assert rest.Ok? && TranslatedFrom(pre, counter, ns).Ok?;
    SliceOfMiddle(TranslatedFrom(bytecodes, counter, ns).value, TranslatedFrom(pre, counter, ns).value, code, rest.value);
  }

  /** ComparisonLabels lists the label number of the comparison at index i
      at position |ComparisonLabels(bytecodes[..i], counter)|, one position
      per earlier comparison. */
  lemma ComparisonLabelsAt(bytecodes: seq<Bytecode>, counter: UInt32, i: nat)
    requires i < |bytecodes| && bytecodes[i].LogicBytecode? && IsComparison(bytecodes[i].operation)
    ensures var k := |ComparisonLabels(bytecodes[..i], counter)|;
      k < |ComparisonLabels(bytecodes, counter)|
      && ComparisonLabels(bytecodes, counter)[k] == Bump(LabelAfter(bytecodes[..i], counter)) as nat
  {
    var pre := bytecodes[..i];
    var post := bytecodes[i..];
    assert bytecodes == pre + post;
    ComparisonLabelsAppend(pre, post, counter);
    var after := LabelAfter(pre, counter);
    assert post[0] == bytecodes[i] && post[1..] == bytecodes[i + 1..];
    assert ComparisonLabels(post, after) == [Bump(after) as nat] + ComparisonLabels(bytecodes[i + 1..], Bump(after));
  }

  /** Conversely, every position of ComparisonLabels belongs to a
      comparison: the one with exactly that many comparisons before it. */
  lemma {:induction false} ComparisonOfLabel(bytecodes: seq<Bytecode>, counter: UInt32, k: nat) returns (i: nat)
    requires k < |ComparisonLabels(bytecodes, counter)|
    ensures i < |bytecodes| && bytecodes[i].LogicBytecode? && IsComparison(bytecodes[i].operation)
    ensures |ComparisonLabels(bytecodes[..i], counter)| == k
  {
    var b := bytecodes[0];
    var next := StepLabel(b, counter);
    var isComparison := b.LogicBytecode? && IsComparison(b.operation);
    var head: seq<nat> := if isComparison then [next as nat] else [];
    assert ComparisonLabels(bytecodes, counter) == head + ComparisonLabels(bytecodes[1..], next);
    if isComparison && k == 0 {
      i := 0;
      assert bytecodes[..0] == [];
    } else {
      var j := ComparisonOfLabel(bytecodes[1..], next, k - |head|);
      i := j + 1;
      assert bytecodes[..i][0] == b && bytecodes[..i][1..] == bytecodes[1..][..j];
      assert ComparisonLabels(bytecodes[..i], counter) == head + ComparisonLabels(bytecodes[1..][..j], next);
    }
  }

  /** A later comparison has more comparisons before it. */
  lemma ComparisonLabelsGrow(bytecodes: seq<Bytecode>, counter: UInt32, i: nat, j: nat)
    requires i < j <= |bytecodes| && bytecodes[i].LogicBytecode? && IsComparison(bytecodes[i].operation)
    ensures |ComparisonLabels(bytecodes[..i], counter)| < |ComparisonLabels(bytecodes[..j], counter)|
  {
    var middle := bytecodes[i..j];
    assert bytecodes[..j] == bytecodes[..i] + middle;
    ComparisonLabelsAppend(bytecodes[..i], middle, counter);
    assert middle[0] == bytecodes[i];
    assert |ComparisonLabels(middle, LabelAfter(bytecodes[..i], counter))| > 0;
  }

  /** Two label lines of comparison code are equal exactly when mnemonic
      and number are. */
  lemma LabelLineInjective(a: string, b: string, m: nat, n: nat)
    requires |a| == 2 && |b| == 2
    ensures "(" + a + "label_" + NatToString(m) + ")" == "(" + b + "label_" + NatToString(n) + ")" <==> a == b && m == n
  {
    var s := "(" + a + "label_" + NatToString(m) + ")";
    var t := "(" + b + "label_" + NatToString(n) + ")";
    if s == t {
      assert s[1..3] == a && t[1..3] == b;
      assert s[9..|s| - 1] == NatToString(m) && t[9..|t| - 1] == NatToString(n);
      NatToStringInjective(m, n);
    }
  }

  /** While the counter does not wrap, no two comparisons of a successful
      translation declare the same label: the last lines of their codes
      differ. */
  lemma ComparisonsDistinct(bytecodes: seq<Bytecode>, counter: UInt32, ns: string, i: nat, j: nat)
    requires TranslatedFrom(bytecodes, counter, ns).Ok? && counter + BumpCount(bytecodes) < UIntLimit
    requires i < j < |bytecodes|
    requires bytecodes[i].LogicBytecode? && IsComparison(bytecodes[i].operation)
    requires bytecodes[j].LogicBytecode? && IsComparison(bytecodes[j].operation)
    ensures TranslatedFrom(bytecodes[..i], counter, ns).Ok? && TranslatedFrom(bytecodes[..j], counter, ns).Ok?
    ensures var out := TranslatedFrom(bytecodes, counter, ns).value;
      var first := |TranslatedFrom(bytecodes[..i], counter, ns).value|;
      var second := |TranslatedFrom(bytecodes[..j], counter, ns).value|;
      first + 13 <= |out| && second + 13 <= |out| && out[first + 12] != out[second + 12]
  {
    var out := TranslatedFrom(bytecodes, counter, ns).value;
    ComparisonAt(bytecodes, counter, ns, i);
    ComparisonAt(bytecodes, counter, ns, j);
    var first := |TranslatedFrom(bytecodes[..i], counter, ns).value|;
    var second := |TranslatedFrom(bytecodes[..j], counter, ns).value|;
    var m := Bump(LabelAfter(bytecodes[..i], counter));
    var n := Bump(LabelAfter(bytecodes[..j], counter));
    assert m < n by {
      ComparisonLabelsAt(bytecodes, counter, i);
      ComparisonLabelsAt(bytecodes, counter, j);
      ComparisonLabelsGrow(bytecodes, counter, i, j);
      ComparisonLabelsIncrease(bytecodes, counter);
    }
    var a := LogicName(bytecodes[i].operation);
    var b := LogicName(bytecodes[j].operation);
    assert out[first + 12] == out[first..first + 13][12] == "(" + a + "label_" + NatToString(m) + ")";
    assert out[second + 12] == out[second..second + 13][12] == "(" + b + "label_" + NatToString(n) + ")";
    LabelLineInjective(a, b, m, n);
  }

  // ---------------------------------------------------------------------
  // vm (without the file I/O); the namespace is a parameter

  /** Parse the lines, then translate with the counter starting at 0. */
  function Translate(lines: seq<string>, ns: string): Result<seq<string>>
  {
    match ParseLines(lines)
    case Err(e) => Err(e)
    case Ok(bytecodes) => TranslatedFrom(bytecodes, 0, ns)
  }

  method TranslateLines(lines: seq<string>, ns: string) returns (r: Result<seq<string>>)
    ensures r == Translate(lines, ns)
  {
    var parsed := ParseFile(lines);
    match parsed {
      case Err(e) =>
        return Err(e);
      case Ok(bytecodes) =>
        r := TranslateToStrings(bytecodes, ns);
    }
  }
}
