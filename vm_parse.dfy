/** The VM line parser (src/vm/parse.cpp): one line of VM code becomes a
    logic bytecode, a push/pop bytecode, nothing, or an error. */
module VmParse {
  import opened Results
  import opened Text

  datatype LogicCommand = Add | Sub | Neg | Eq | Gt | Lt | And | Or | Not

  const LogicCommandLookup: map<string, LogicCommand> :=
    map["add" := Add, "sub" := Sub, "neg" := Neg, "eq" := Eq, "gt" := Gt,
        "lt" := Lt, "and" := And, "or" := Or, "not" := Not]

  datatype MemoryCommand = Push | Pop

  const MemoryCommandLookup: map<string, MemoryCommand> := map["push" := Push, "pop" := Pop]

  datatype MemorySegment = Local | Argument | This | That | Constant | Static | Temp | Pointer

  const MemorySegmentLookup: map<string, MemorySegment> :=
    map["local" := Local, "argument" := Argument, "this" := This, "that" := That,
        "constant" := Constant, "static" := Static, "temp" := Temp, "pointer" := Pointer]

  /** 2^32: one more than the largest 32-bit `unsigned int`. */
  const UIntLimit: nat := 0x1_0000_0000

  type UInt32 = n: nat | n < UIntLimit

  datatype Bytecode =
    | LogicBytecode(operation: LogicCommand)
    | MemoryBytecode(command: MemoryCommand, segment: MemorySegment, value: UInt32)

  /** The mnemonics, inverse to the lookup tables. */
  function LogicName(c: LogicCommand): (name: string)
    ensures name in LogicCommandLookup && LogicCommandLookup[name] == c
  {
    match c
    case Add => "add" case Sub => "sub" case Neg => "neg" case Eq => "eq" case Gt => "gt"
    case Lt => "lt" case And => "and" case Or => "or" case Not => "not"
  }

  function CommandName(c: MemoryCommand): (name: string)
    ensures name in MemoryCommandLookup && MemoryCommandLookup[name] == c
  {
    match c
    case Push => "push" case Pop => "pop"
  }

  function SegmentName(s: MemorySegment): (name: string)
    ensures name in MemorySegmentLookup && MemorySegmentLookup[name] == s
  {
    match s
    case Local => "local" case Argument => "argument" case This => "this" case That => "that"
    case Constant => "constant" case Static => "static" case Temp => "temp" case Pointer => "pointer"
  }

  /** Every mnemonic is a non-empty run of lower-case letters, and no push/pop
      mnemonic is a logic one. */
  lemma MnemonicsPlain()
    ensures forall w :: w in LogicCommandLookup ==> w != [] && LowerWord(w)
    ensures forall w :: w in MemoryCommandLookup ==> w != [] && LowerWord(w) && w !in LogicCommandLookup
    ensures forall w :: w in MemorySegmentLookup ==> w != [] && LowerWord(w)
  {
  }

  predicate LowerWord(w: string) { forall i :: 0 <= i < |w| ==> 'a' <= w[i] <= 'z' }

  /** The line with its comment removed and its ends trimmed. */
  function Prepared(line: string): string
  {
    Trim(StripComment(line))
  }

  /** parseLine. */
  function ParseLine(line: string): Result<Option<Bytecode>>
  {
    var s := Prepared(line);
    if |s| == 0 then Ok(None) else ParseWords(s, Split(s, ' '))
  }

  /** The lookups on the words of a non-empty prepared line `s`. A missing
      second or third word (an out-of-range vector access in the C++) is
      reported as a missing operand. */
  function ParseWords(s: string, words: seq<string>): Result<Option<Bytecode>>
    requires |words| >= 1
  {
    if words[0] in LogicCommandLookup then Ok(Some(LogicBytecode(LogicCommandLookup[words[0]])))
    else if words[0] in MemoryCommandLookup then
      if |words| < 2 then Err(MissingOperand(s))
      else if words[1] !in MemorySegmentLookup then Err(UnknownSegment(words[1]))
      else if |words| < 3 then Err(MissingOperand(s))
      else
        match Stoul(words[2])
        case Err(e) => Err(e)
        // static_cast<unsigned int> keeps the low 32 bits
        case Ok(n) => Ok(Some(MemoryBytecode(MemoryCommandLookup[words[0]], MemorySegmentLookup[words[1]], n % UIntLimit)))
    else Err(CouldNotParse(s))
  }

  /** The text of a bytecode in the VM language. */
  function Unparse(b: Bytecode): string
  {
    match b
    case LogicBytecode(c) => LogicName(c)
    case MemoryBytecode(c, s, v) => CommandName(c) + " " + SegmentName(s) + " " + NatToString(v)
  }

  /** Preparing is idempotent: removing the comment and trimming again
      changes nothing. */
  lemma PreparedTwice(line: string)
    ensures Prepared(Prepared(line)) == Prepared(line)
  {
    var t := StripComment(line);
    StripCommentFirst(line);
    TrimNoComment(t);
    StripCommentNone(Trim(t));
    TrimTwice(t);
  }

  /** The result depends only on the line without its comment and without
      whitespace at its ends. */
  lemma ParseLinePrepared(line: string)
    ensures ParseLine(line) == ParseLine(Prepared(line))
    ensures ParseLine(line) == ParseLine(StripComment(line))
  {
    PreparedTwice(line);
    StripCommentTwice(line);
  }

  /** A line yields nothing exactly when nothing is left after removing the
      comment and trimming. */
  lemma ParseLineEmpty(line: string)
    ensures ParseLine(line) == Ok(None) <==> Prepared(line) == []
  {
    var s := Prepared(line);
    if s != [] {
      ParseWordsSome(s, Split(s, ' '));
    }
  }

  /** The words of a non-empty line give a bytecode or an error, never
      nothing. */
  lemma ParseWordsSome(s: string, words: seq<string>)
    requires |words| >= 1
    ensures ParseWords(s, words) != Ok(None)
  {
  }

  /** The words of a prepared line: the first word picks the command. A
      logic mnemonic makes a logic bytecode whatever follows; a push/pop
      makes a memory bytecode whose segment is the second word looked up and
      whose index is what stoul reads from the third word, cut to 32 bits. */
  lemma ParseLineWords(line: string)
    requires ParseLine(line).Ok? && ParseLine(line).value.Some?
    ensures var words := Split(Prepared(line), ' ');
      match ParseLine(line).value.value
      case LogicBytecode(c) =>
        words[0] in LogicCommandLookup && LogicCommandLookup[words[0]] == c
      case MemoryBytecode(c, seg, v) =>
        |words| >= 3 && words[0] in MemoryCommandLookup && MemoryCommandLookup[words[0]] == c
        && words[1] in MemorySegmentLookup && MemorySegmentLookup[words[1]] == seg
        && Stoul(words[2]).Ok? && v == Stoul(words[2]).value % UIntLimit
  {
  }

  /** The error cases: an unknown segment after push/pop, a missing
      operand, and a first word that is no command at all. */
  lemma ParseLineErrors(line: string)
    ensures var s := Prepared(line);
      var words := Split(s, ' ');
      (s != [] && words[0] !in LogicCommandLookup && words[0] !in MemoryCommandLookup) ==>
        ParseLine(line) == Err(CouldNotParse(s))
    ensures var s := Prepared(line);
      var words := Split(s, ' ');
      (s != [] && words[0] in MemoryCommandLookup && |words| >= 2 && words[1] !in MemorySegmentLookup) ==>
        ParseLine(line) == Err(UnknownSegment(words[1]))
    ensures var s := Prepared(line);
      var words := Split(s, ' ');
      (s != [] && words[0] in MemoryCommandLookup && (|words| < 2 || (words[1] in MemorySegmentLookup && |words| < 3))) ==>
        ParseLine(line) == Err(MissingOperand(s))
  {
    MnemonicsPlain();
  }

  /** A line of plain words: no slash, and no whitespace at either end. */
  predicate PlainLine(s: string)
  {
    s != [] && !IsSpace(s[0]) && !IsSpace(s[|s| - 1]) && '/' !in s
  }

  /** A plain line is already prepared. */
  lemma PlainPrepared(s: string)
    requires PlainLine(s)
    ensures Prepared(s) == s
  {
    forall j: nat ensures !OccursAt(s, "//", j) {
      OccursAtSlashes(s, j);
    }
    StripCommentNone(s);
    TrimPlain(s);
  }

  /** `push`/`pop`, a segment and a decimal index, separated by single
      spaces: the index is taken modulo 2^32, and one of 2^64 or more is out
      of range. */
  lemma ParseMemoryLine(c: MemoryCommand, seg: MemorySegment, n: nat)
    ensures var line := CommandName(c) + " " + SegmentName(seg) + " " + NatToString(n);
      ParseLine(line) ==
        if n < ULongLimit then Ok(Some(MemoryBytecode(c, seg, n % UIntLimit)))
        else Err(NumberOutOfRange(NatToString(n)))
  {
    var cmd, sg, digits := CommandName(c), SegmentName(seg), NatToString(n);
    var line := cmd + " " + sg + " " + digits;
    MnemonicsPlain();
    MemoryLineWords(cmd, sg, digits);
    assert ParseLine(line) == ParseWords(line, [cmd, sg, digits]);
    ScanNatToString(n);
    StoulOf(digits, n);
    ParseMemoryWords(line, cmd, sg, digits);
  }

  /** Three plain words joined by single spaces are a prepared line with
      those three words. */
  lemma MemoryLineWords(cmd: string, sg: string, index: string)
    requires cmd != [] && LowerWord(cmd) && sg != [] && LowerWord(sg) && index != [] && AllDigits(index)
    ensures var line := cmd + " " + sg + " " + index;
      Prepared(line) == line && Split(line, ' ') == [cmd, sg, index]
  {
    var line := cmd + " " + sg + " " + index;
    ThreeWordsPlain(cmd, sg, index);
    PlainPrepared(line);
    ThreeWordsSplit(cmd, sg, index);
  }

  lemma ThreeWordsPlain(cmd: string, sg: string, index: string)
    requires cmd != [] && LowerWord(cmd) && sg != [] && LowerWord(sg) && index != [] && AllDigits(index)
    ensures PlainLine(cmd + " " + sg + " " + index)
  {
    var line := cmd + " " + sg + " " + index;
    assert line[0] == cmd[0] && line[|line| - 1] == index[|index| - 1];
    assert forall i :: 0 <= i < |line| ==> line[i] == ' ' || IsDigit(line[i]) || 'a' <= line[i] <= 'z';
  }

  lemma ThreeWordsSplit(cmd: string, sg: string, index: string)
    requires ' ' !in cmd && ' ' !in sg && ' ' !in index
    ensures Split(cmd + " " + sg + " " + index, ' ') == [cmd, sg, index]
  {
    var line := cmd + " " + sg + " " + index;
    assert line == cmd + [' '] + (sg + [' '] + index);
    SplitCons(cmd, ' ', sg + [' '] + index);
    SplitCons(sg, ' ', index);
    SplitNone(index, ' ');
  }

  /** The words of a push/pop line with a known segment. */
  lemma ParseMemoryWords(s: string, cmd: string, sg: string, index: string)
    requires cmd in MemoryCommandLookup && cmd !in LogicCommandLookup && sg in MemorySegmentLookup
    ensures ParseWords(s, [cmd, sg, index]) ==
      match Stoul(index)
      case Err(e) => Err(e)
      case Ok(v) => Ok(Some(MemoryBytecode(MemoryCommandLookup[cmd], MemorySegmentLookup[sg], v % UIntLimit)))
  {
  }

  /** Printing a bytecode and parsing the text gives the bytecode back. */
  lemma ParseUnparse(b: Bytecode)
    ensures ParseLine(Unparse(b)) == Ok(Some(b))
  {
    if b.LogicBytecode? {
      ParseLogicName(b.operation);
    } else {
      ParseUnparseMemory(b.command, b.segment, b.value);
    }
  }

  lemma ParseUnparseMemory(c: MemoryCommand, seg: MemorySegment, v: UInt32)
    ensures ParseLine(CommandName(c) + " " + SegmentName(seg) + " " + NatToString(v)) == Ok(Some(MemoryBytecode(c, seg, v)))
  {
    ParseSmallIndex(c, seg, v);
    UIntMod(v);
    assert MemoryBytecode(c, seg, v % UIntLimit) == MemoryBytecode(c, seg, v);
  }

  lemma UIntMod(v: UInt32)
    ensures v % UIntLimit == v
  {
  }

  lemma ParseSmallIndex(c: MemoryCommand, seg: MemorySegment, v: UInt32)
    ensures ParseLine(CommandName(c) + " " + SegmentName(seg) + " " + NatToString(v)) == Ok(Some(MemoryBytecode(c, seg, v % UIntLimit)))
  {
    ParseMemoryLine(c, seg, v);
  }

  lemma ParseLogicName(c: LogicCommand)
    ensures ParseLine(LogicName(c)) == Ok(Some(LogicBytecode(c)))
  {
    var name := LogicName(c);
    MnemonicsPlain();
    assert '/' !in name by {
      assert forall i :: 0 <= i < |name| ==> 'a' <= name[i] <= 'z';
    }
    PlainPrepared(name);
    SplitNone(name, ' ');
  }

  /** Words after a logic mnemonic are ignored. */
  lemma ParseLogicLine(c: LogicCommand, rest: string)
    requires PlainLine(rest)
    ensures ParseLine(LogicName(c) + " " + rest) == Ok(Some(LogicBytecode(c)))
  {
    var name := LogicName(c);
    var line := name + " " + rest;
    MnemonicsPlain();
    PlainAfterWord(name, " ", rest);
    PlainPrepared(line);
    assert line == name + [' '] + rest;
    SplitCons(name, ' ', rest);
  }

  /** A lower-case word, spaces, then a plain line make a plain line. */
  lemma PlainAfterWord(word: string, spaces: string, rest: string)
    requires word != [] && LowerWord(word) && PlainLine(rest)
    requires forall i :: 0 <= i < |spaces| ==> spaces[i] == ' '
    ensures PlainLine(word + spaces + rest)
  {
    var line := word + spaces + rest;
    assert line[0] == word[0] && line[|line| - 1] == rest[|rest| - 1];
    forall i | 0 <= i < |line| ensures line[i] != '/' {
      if i >= |word| + |spaces| {
        assert line[i] == rest[i - |word| - |spaces|];
      }
    }
  }

  /** Two spaces in a row make an empty word: after push/pop, the empty
      word is looked up as the segment and is unknown. */
  lemma ParseDoubleSpace(c: MemoryCommand, rest: string)
    requires PlainLine(rest)
    ensures ParseLine(CommandName(c) + "  " + rest) == Err(UnknownSegment(""))
  {
    var name := CommandName(c);
    var line := name + "  " + rest;
    MnemonicsPlain();
    PlainAfterWord(name, "  ", rest);
    PlainPrepared(line);
    DoubleSpaceSplit(name, rest);
    EmptySegmentWord(line, name, Split(rest, ' '));
  }

  lemma EmptySegmentWord(s: string, name: string, words: seq<string>)
    requires name in MemoryCommandLookup && name !in LogicCommandLookup
    ensures ParseWords(s, [name, ""] + words) == Err(UnknownSegment(""))
  {
    assert ([name, ""] + words)[0] == name && ([name, ""] + words)[1] == "";
    assert "" !in MemorySegmentLookup;
  }

  lemma DoubleSpaceSplit(name: string, rest: string)
    requires ' ' !in name
    ensures Split(name + "  " + rest, ' ') == [name, ""] + Split(rest, ' ')
  {
    assert name + "  " + rest == name + [' '] + ([] + [' '] + rest);
    SplitCons(name, ' ', [] + [' '] + rest);
    SplitCons([], ' ', rest);
    assert [] + [' '] + rest == [] + [' '] + rest;
  }

  function ParseLines(lines: seq<string>): Result<seq<Bytecode>>
  {
    Collect(lines, ParseLine)
  }

  /** parseFile without the file: the lines' bytecodes in order. */
  method ParseFile(lines: seq<string>) returns (r: Result<seq<Bytecode>>)
    ensures r == ParseLines(lines)
  {
    var parsed: seq<Bytecode> := [];
    var i := 0;
    assert lines[0..] == lines;
    PrependNothing(ParseLines(lines));
    while i < |lines|
      invariant 0 <= i <= |lines|
      invariant ParseLines(lines) == Prepend(parsed, Collect(lines[i..], ParseLine))
      decreases |lines| - i
    {
      assert lines[i..][1..] == lines[i + 1..];
      var parsedLine := ParseLine(lines[i]);
      match parsedLine {
        case Err(e) =>
          return Err(e);
        case Ok(None) =>
        case Ok(Some(b)) =>
          PrependPrepend(parsed, [b], Collect(lines[i + 1..], ParseLine));
          parsed := parsed + [b];
      }
      i := i + 1;
    }
    assert lines[i..] == [];
    assert parsed + [] == parsed;
    r := Ok(parsed);
  }
}
