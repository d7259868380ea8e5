# Hack assembler and VM translator, modelled in Dafny

This project models the two translators of a nand2tetris toolchain written
in C++. Both follow the Hack platform of *The Elements of Computing Systems*
(chapters 4, 6 and 7).

- The **assembler** reads Hack assembly. It parses each line into an
  A-instruction, a C-instruction or a label (`src/parse.cpp`). A label pass
  builds the user symbol table. Each instruction is then encoded as a
  16-character binary string, and symbols met for the first time become
  variables (`src/assemble.cpp`).
- The **VM translator** reads stack-machine bytecode. It parses each line
  into a logic or a push/pop command (`src/vm/parse.cpp`) and expands each
  command into a fixed list of assembly lines (`src/vm/vm.cpp`). A label
  counter is threaded through the run, and static symbols are qualified by a
  namespace.

Modules, one per concern:

| module | file | models |
|---|---|---|
| `Results` | results.dfy | `Option`, `Result` and the error cases the C++ throws as exceptions. Also `Collect`, the read-each-line-and-push loop of both `parseFile`s. |
| `Text` | text.dfy | the library calls the core leans on: `isspace`/`isalpha`, `std::string::find`, comment stripping, `boost::trim`, `boost::split` on `' '`, `std::stoi`, `std::stoul`, `std::to_string` |
| `Binary` | binary.dfy | `std::bitset<N>::to_string` as `ToBinary`, and its inverse `FromBinary` |
| `HackParse` | hack_parse.dfy | `src/parse.cpp`: the `Jump` table, the instruction variant, `parseLine`, `parseFile` |
| `Assemble` | assemble.dfy | `src/assemble.cpp`: the symbol, comp and dest tables, `buildUserSymbols`, `resolve_symbol` (a class whose method updates the table in place), `assemble_to_strings`, `assemble` |
| `VmParse` | vm_parse.dfy | `src/vm/parse.cpp`: the command and segment tables, the bytecode variant, `parseLine`, `parseFile` |
| `Vm` | vm.dfy | `src/vm/vm.cpp`: both single-bytecode `translateToStrings`, `simplePush`, `simplePop`, the list-level `translateToStrings`, `vm` |
| `HackMachine` | hack_machine.dfy | a small Hack machine: straight-line assembly is parsed by the assembler's parser, decoded and run. It is used to state what the emitted push/pop code does to the stack. |

How the model is built:
- The loops of the source are methods with `while` loops:
  - `parseFile` (both);
  - `buildUserSymbols`;
  - `assemble_to_strings`;
  - the list-level `translateToStrings`.
- Each such method is proved equal to a recursive specification function, and the properties are lemmas about that function.
- `resolve_symbol` changes its table through a reference. It is the method `SymbolTable.Resolve` on a class holding the map, proved against the function `Resolved`.
- Exceptions are `Err` values, and the first error of a file stops the fold, as the exception would.
- Integer widths are written out where the VM translator and the encoders depend on them:
  - the A-instruction keeps 15 bits;
  - in the VM translator, the `unsigned int` label counter, the index cast from `stoul` and the pointer address `3 + i` wrap modulo 2^32;
  - `stoul` rejects 2^64 and more, and wraps a negative value modulo 2^64;
  - `stoi` rejects values outside 32-bit `int`.
- The assembler's own counters are unbounded: the `uint current_address` of the label pass (src/assemble.cpp:71) and the `int` variable address `16 + variables_defined` (src/assemble.cpp:93-94). "## Left out" says what that drops.

Behaviour kept exactly as the source has it:
- `!A` and `-A` share the code `0110011`.
- Comparisons jump to `@<ns>_eqlabel_<n>` but declare `(eqlabel_<n>)`, so their jump target is never declared.
- `and` and `or` also advance the label counter.
- An A-instruction address is truncated to 15 bits, never rejected.
- A label declared twice keeps its first address.
- The assembler finds `=` and `;` independently. A `;` before the `=` therefore makes the rest of the line the jump text, and that text can never be a jump mnemonic.
- The translation of `add` ends in `M=M+D`. The comp table only has `D+M`, so assembling the translator's own output for `add` fails on that line. `HackMachine.AddRejected` states this.

## Model

| member | source | states |
|---|---|---|
| Results.CollectOk | src/parse.cpp:112-118 | collecting a file succeeds iff every line parses without error |
| Results.CollectFirstError | src/vm/parse.cpp:138-143 | a file fails with the error of its first failing line |
| Results.CollectKeeps | src/parse.cpp:112-118 | the collected values are exactly the results of the lines that produced one: at strictly increasing line indices, in source order, with every other line producing nothing |
| Results.CollectHas | src/vm/parse.cpp:138-143 | a line that produced a value appears in the collected list |
| Results.CollectAppend | src/parse.cpp:112-118 | collecting `a + b` is collecting `a`, then `b`, with `a`'s error winning |
| Text.RemoveWhitespaceClean | src/parse.cpp:64 | no whitespace character survives the erase/remove_if |
| Text.RemoveWhitespaceAppend | src/parse.cpp:64 | whitespace removal distributes over concatenation |
| Text.RemoveWhitespaceNoSpace | src/parse.cpp:64 | a line without whitespace is unchanged |
| Text.FindFirst | src/parse.cpp:65 | `find` returns the first index where the pattern occurs, and none when it occurs nowhere |
| Text.FindChar | src/parse.cpp:78-84 | finding a one-character pattern gives its first position, and none iff the character is absent |
| Text.StripCommentFirst | src/parse.cpp:65-68 | after erasing from `//`, no `//` remains, and the cut is made exactly at the first `//` |
| Text.StripCommentTwice | src/vm/parse.cpp:102-105 | stripping a comment twice is stripping it once |
| Text.TrimShape | src/vm/parse.cpp:106 | `trim` keeps a contiguous slice of the line, with only whitespace before and after it |
| Text.TrimTwice | src/vm/parse.cpp:106 | trimming is idempotent |
| Text.TrimNoComment | src/vm/parse.cpp:102-106 | trimming a line free of `//` keeps it free of `//` |
| Text.JoinSplit | src/vm/parse.cpp:111 | joining the split tokens with `' '` gives back the line, so consecutive spaces leave empty tokens |
| Text.SplitCons | src/vm/parse.cpp:111 | splitting `a + " " + b` with `a` free of spaces gives `a`, then the tokens of `b` |
| Text.StoiOf | src/assemble.cpp:105 | when the leading digits read as `v`, `stoi` returns `v` if it lies in [-2^31, 2^31 - 1] and is out of range otherwise; the round trip through `to_string` is StoiToString |
| Text.StoiToString | src/assemble.cpp:105 | the decimal form of `n` reads back as `n` up to 2^31 - 1, `-n` reads back down to -2^31, and `n` above 2^31 - 1 is out of range |
| Text.StoulOf | src/vm/parse.cpp:123 | when the leading digits read as `v`, `stoul` returns `v` for 0 <= v < 2^64, wraps a negative `v` above -2^64 to 2^64 + v, and is out of range otherwise; the negative wrap on printed numbers is StoulNegative |
| Text.StoulNegative | src/vm/parse.cpp:123 | `-n` with 0 < n < 2^64 reads as 2^64 - n, so `-1` reads as 2^64 - 1 |
| Text.ScanNatToString | src/vm/vm.cpp:71 | reading back `to_string(n)` gives `n` |
| Text.NatToStringInjective | src/vm/vm.cpp:30-31 | `to_string` gives equal strings iff the numbers are equal, so different counters give different label names |
| Binary.ToBinaryShape | src/assemble.cpp:109 | `to_string` of a `bitset<width>` has `width` characters, each `0` or `1` |
| Binary.FromToBinary | src/assemble.cpp:107-109 | reading the bit string back gives the number modulo 2^width |
| Binary.ToBinaryConcat | src/assemble.cpp:119-129 | the bits of `hi * 2^k + lo` are those of `hi` followed by the `k` bits of `lo` |
| HackParse.JumpName | src/parse.cpp:24-32 | every jump has a mnemonic, and the lookup table maps it back to that jump |
| HackParse.JumpLookupNames | src/parse.cpp:24-32 | each key of the jump table is the mnemonic of its jump and holds no `=` |
| HackParse.ParseLineIgnoresWhitespace | src/parse.cpp:64 | a line parses as the same line with all whitespace removed |
| HackParse.ParseLineIgnoresSpaceChar | src/parse.cpp:64 | inserting one whitespace character anywhere does not change the result |
| HackParse.ParseLineIgnoresComment | src/parse.cpp:65-68 | appending `//` and any text to code that holds no `//` and does not end in `/` leaves the result unchanged |
| HackParse.ParseLineEmpty | src/parse.cpp:63-70 | a line yields nothing iff it is empty after whitespace and comment removal |
| HackParse.ParseLineAOrLabel | src/parse.cpp:72-75 | `@v` yields the A-instruction `v`; `(x)` yields the label with the first and last characters dropped, and `(` alone the empty label |
| HackParse.ParseLineC | src/parse.cpp:76-96 | a parsed C-instruction prints back to the cleaned line. `dest` is present iff the line holds `=`, and then holds neither `=` nor `;`. `comp` holds no `;`. `jump` is present iff the line holds `;`. |
| HackParse.ParseCBoth | src/parse.cpp:78-94 | with `=` before `;`: dest is the text before the first `=`, comp the text between, and jump the table entry for the text after the first `;` |
| HackParse.ParseLineJumpError | src/parse.cpp:87-92 | a C-line `pre;post` fails iff `post` is not one of the seven mnemonics, and the error names `post` |
| HackParse.ParseLineNoJumpOk | src/parse.cpp:76-97 | a line with code and no `;` always parses |
| HackParse.SemicolonBeforeEqual | src/parse.cpp:78-92 | when a `;` comes before the first `=`, the jump text contains `=` and is never a mnemonic |
| HackParse.ParseUnparse | src/parse.cpp:62-101 | every well-formed instruction, printed in assembly syntax, parses back to itself |
| HackParse.ParseFile | src/parse.cpp:103-121 | the line loop returns what `Collect` on ParseLine gives |
| Assemble.TablesInRange | src/assemble.cpp:26-65 | every comp code fits in 7 bits, and every dest code is between 1 and 7 |
| Assemble.UserSymbols | src/assemble.cpp:68-69 | the user table starts the variable counter at 0 |
| Assemble.BuildUserSymbols | src/assemble.cpp:67-81 | the label-pass loop computes `UserSymbols` |
| Assemble.LabelsFromKeeps | src/assemble.cpp:71-77 | after the pass, the keys are exactly the previous keys plus the declared label names |
| Assemble.LabelAddress | src/assemble.cpp:71-77 | a label's first declaration maps to the number of A/C instructions before it |
| Assemble.DuplicateLabel | src/assemble.cpp:76 | a later duplicate declaration keeps the first address, which is never more than the duplicate's own |
| Assemble.UserSymbolsKeys | src/assemble.cpp:67-81 | the user table holds exactly the counter key and the declared labels |
| Assemble.Resolved | src/assemble.cpp:83-98 | resolving never changes an entry other than the variable counter |
| Assemble.ResolveBuiltIn | src/assemble.cpp:84-85 | a built-in name resolves to its built-in value, whatever the user table holds, and the table is unchanged; over a whole series of names see VariablesInOrder |
| Assemble.ResolveKnown | src/assemble.cpp:86-87 | a known user name resolves to its entry, and the table is unchanged; over a whole series of names see VariablesInOrder |
| Assemble.ResolveFresh | src/assemble.cpp:93-97 | a new name gets 16 + counter and is recorded; the counter grows by exactly 1, and the key set grows by exactly that name |
| Assemble.ResolveAgain | src/assemble.cpp:83-98 | resolving the same name again returns the same address and leaves the table as it is |
| Assemble.VariablesInOrder | src/assemble.cpp:83-97 | resolving any series of names from a table, each name neither built in nor in the table gets 16 + counter + its position among such names in first-occurrence order; a repeat gets its earlier address, a built-in name its built-in value, a known name its entry; the counter grows by the number of new names, other entries are kept and the keys grow by exactly the new names |
| Assemble.SymbolTable.Resolve | src/assemble.cpp:83-98 | the in-place resolver returns the address and leaves the table that `Resolved` describes |
| Assemble.EncodeALayout | src/assemble.cpp:104-109 | an A-instruction is `0` followed by the 15 low bits of the address: 16 bits, reading back as address mod 2^15 |
| Assemble.EncodeABits | src/assemble.cpp:107-108 | clearing bit 15 of the 16-bit set is the same as keeping the address modulo 2^15 |
| Assemble.JumpBits | src/assemble.cpp:113 | the jump field is below 8 |
| Assemble.EncodeCErrors | src/assemble.cpp:115-125 | an unknown comp is `Invalid comp`; a known comp with an unknown dest is `Invalid dest`; encoding succeeds iff the comp, and any dest, are in their tables |
| Assemble.EncodeCLayout | src/assemble.cpp:113-130 | a C-instruction is `111`, then 7 comp bits, then 3 dest bits (0 without dest), then 3 jump bits (index + 1, 0 without jump). Each field reads back as its code. |
| Assemble.AssembleToStrings | src/assemble.cpp:100-135 | the encoding loop, with its in-place resolver, computes `AssembledFrom` |
| Assemble.AssembledShape | src/assemble.cpp:103-131 | the output has one string per A/C instruction, and each string is 16 characters of `0`/`1` |
| Assemble.AssembledAt | src/assemble.cpp:103-131 | the output string at the count of A/C instructions before `i` is instruction `i`'s encoding, under the table that resolving every symbol reference before `i`, in order, leaves; that table agrees with the initial one on every non-counter entry |
| Assemble.AssembledC | src/assemble.cpp:112-131 | each C-instruction becomes, at its own position, its bit-field encoding |
| Assemble.AssembledNumber | src/assemble.cpp:104-109 | an A-instruction with a non-alphabetic start becomes, at its position, the encoding of its `stoi` value |
| Assemble.LabelReference | src/assemble.cpp:104-109 | `@L` for a user label `L` becomes the encoding of the label's address |
| Assemble.VariableAddress | src/assemble.cpp:89-109 | in a program that assembles, `@x` for a name `x` that is neither built in nor a label becomes the encoding of 16 + k, where `k` is the position of `x` among the variables referenced up to it, in order of first reference |
| Assemble.AssembledRejects | src/assemble.cpp:115-125 | one C-instruction with an invalid comp or dest makes the whole program fail |
| Assemble.AssembleRejectsLine | src/assemble.cpp:137-142 | a source line parsing to such a C-instruction makes assembling the file fail |
| Assemble.AssembleLines | src/assemble.cpp:137-142 | parse, label pass and encode chained as in `assemble` |
| Assemble.WorkedExample | src/assemble.cpp:100-135 | `@2` and `D=A` assemble to `0000000000000010` and `1110110000010000` |
| Assemble.ExampleC | src/assemble.cpp:112-130 | `D=A` encodes to `1110110000010000` |
| VmParse.LogicName | src/vm/parse.cpp:47-57 | every logic command has a mnemonic that the table maps back to it |
| VmParse.CommandName | src/vm/parse.cpp:60-63 | push and pop have mnemonics that the table maps back |
| VmParse.SegmentName | src/vm/parse.cpp:66-75 | every segment has a name that the table maps back |
| VmParse.MnemonicsPlain | src/vm/parse.cpp:47-75 | every mnemonic is a non-empty lower-case word; push/pop are not logic mnemonics |
| VmParse.PreparedTwice | src/vm/parse.cpp:101-106 | stripping the comment and trimming is idempotent |
| VmParse.ParseLinePrepared | src/vm/parse.cpp:101-106 | a line parses as its comment-stripped and trimmed form, and as its comment-stripped form |
| VmParse.ParseLineEmpty | src/vm/parse.cpp:108 | a line yields nothing iff it is empty after comment stripping and trimming |
| VmParse.ParseLineWords | src/vm/parse.cpp:110-123 | a logic result comes from the first token. A memory result has command, segment and `stoul` index (cast to 32 bits) from the first three tokens. |
| VmParse.ParseLineErrors | src/vm/parse.cpp:117-126 | an unknown first token gives `Could not parse line`; an unknown segment gives `Unknown memory segment` naming it; a missing token gives a missing-operand error |
| VmParse.ParseMemoryLine | src/vm/parse.cpp:117-123 | `cmd seg n` parses to that memory command with index `n mod 2^32`, or fails as out of range from 2^64 |
| VmParse.ParseUnparse | src/vm/parse.cpp:100-127 | every bytecode, printed in VM syntax, parses back to itself |
| VmParse.ParseLogicLine | src/vm/parse.cpp:113-115 | a logic mnemonic followed by anything parses to that command; further tokens are ignored |
| VmParse.ParseDoubleSpace | src/vm/parse.cpp:110-121 | two spaces after push/pop give an empty segment token, which is an unknown segment |
| VmParse.ParseFile | src/vm/parse.cpp:129-154 | the line loop returns what `Collect` on ParseLine gives |
| Vm.LogicCounterAndLength | src/vm/vm.cpp:9-68 | eq, gt, lt, and, or advance the counter by one (mod 2^32) and the rest leave it. Comparisons emit 13 lines, neg/not 3, the others 6. |
| Vm.LogicFixed | src/vm/vm.cpp:12-62 | the non-comparison translations do not depend on the counter or the namespace |
| Vm.ComparisonShape | src/vm/vm.cpp:26-46 | with the advanced counter `k`, line 8 is `@<ns>_<op>label_<k>`, line 9 `D;JEQ`/`D;JGT`/`D;JLT`, and line 13 `(<op>label_<k>)` |
| Vm.ComparisonLabelMismatch | src/vm/vm.cpp:26-46 | the jump target is the declared label with `<ns>_` in front, and the two always differ |
| Vm.MemoryErrors | src/vm/vm.cpp:84-143 | a memory command fails iff it is `pop constant`, with the `Cannot pop constant` error |
| Vm.SegmentAddressing | src/vm/vm.cpp:70-137 | local/argument/this/that go through simplePush/simplePop with their base register read by `D=M`. temp uses literal 5 by `D=A`. static uses `<ns>.<i>`, pointer `3+i` (mod 2^32), and push constant the seven listed lines. |
| Vm.TranslateToStrings | src/vm/vm.cpp:148-162 | the list loop, starting the counter at 0, computes `TranslatedFrom` |
| Vm.TranslatedAppend | src/vm/vm.cpp:148-162 | translating `a + b` is `a`'s lines followed by `b`'s, translated from the counter `a` leaves |
| Vm.TranslatedOk | src/vm/vm.cpp:148-162 | a bytecode list translates iff it holds no `pop constant` |
| Vm.LabelAfterCount | src/vm/vm.cpp:149-157 | the counter after a list is the start plus the number of eq/gt/lt/and/or, mod 2^32 |
| Vm.LabelAfterAppend | src/vm/vm.cpp:149-157 | the counter after `a + b` is the counter after `b`, started where `a` left it |
| Vm.ComparisonAt | src/vm/vm.cpp:148-162 | in a successful translation, the comparison at index `i` emits, right after the lines of the earlier bytecodes, the 13 comparison lines with its own mnemonic and jump and the counter the earlier bytecodes leave plus one |
| Vm.ComparisonLabelsAppend | src/vm/vm.cpp:149-157 | the label numbers of `a + b` are those of `a`, then those of `b` from the counter `a` leaves |
| Vm.ComparisonLabelsAt | src/vm/vm.cpp:148-162 | the comparison at index `i` has its emitted counter at the position of the list given by the number of comparisons before it |
| Vm.ComparisonOfLabel | src/vm/vm.cpp:148-162 | conversely, every position of the list belongs to the comparison with exactly that many comparisons before it, so the list holds exactly the emitted counters |
| Vm.ComparisonLabelsIncrease | src/vm/vm.cpp:26-46 | without wrap-around, the label numbers the comparisons of a run use are strictly increasing and lie between start and end counter |
| Vm.ComparisonsDistinct | src/vm/vm.cpp:26-46 | without wrap-around, two comparisons of a successful translation declare different labels: the last lines of their emitted code differ |
| Vm.TranslateLines | src/vm/vm.cpp:164-169 | parse then translate, as in `vm` |
| HackMachine.ComputationsAreCompTable | src/assemble.cpp:26-55 | the machine's computations have exactly the mnemonics of the comp table |
| HackMachine.PushConstantEffect | src/vm/vm.cpp:121-125 | `push constant i` stores `i` (its low 15 bits, as assembled) at RAM[SP] and then increments RAM[0] (`Pushed`); that is SP + 1 (mod 2^16) when SP ≠ 0 (PushedStack) |
| HackMachine.SimplePushRuns | src/vm/vm.cpp:76-79 | simplePush pushes RAM[base + (i mod 2^15)], the sum taken mod 2^16, where base is RAM[reg], or `reg` itself when exact; the assembler keeps only the low 15 bits of the emitted `@i` |
| HackMachine.SimplePopRuns | src/vm/vm.cpp:70-74 | simplePop, in this order, writes the target t = base + (i mod 2^15), the sum taken mod 2^16, into R15, decrements SP and stores the word at the new SP at t (`Popped`); only when t and the new SP avoid RAM[0] and R15 does that leave SP one lower, R15 holding t and the old top of stack at t (PoppedStack) |
| HackMachine.PushSegmentEffect | src/vm/vm.cpp:113-132 | push local/argument/this/that `i` pushes RAM[RAM[base register] + (i mod 2^15)], and push temp `i` pushes RAM[5 + (i mod 2^15)], each sum taken mod 2^16, leaving `Pushed(m, v)`; SP grows by one (mod 2^16) and only RAM[SP] changes besides when SP ≠ 0 (PushedStack) |
| HackMachine.PopSegmentEffect | src/vm/vm.cpp:87-103 | pop local/argument/this/that `i` targets t = RAM[base register] + (i mod 2^15), pop temp `i` targets t = 5 + (i mod 2^15), each sum taken mod 2^16, and the run leaves `Popped(m, t)`; SP one lower, R15 = t and the old top at t hold only when t and the new SP avoid RAM[0] and R15 (PoppedStack): `pop temp 10` targets R15 itself |
| HackMachine.PushedStack | src/vm/vm.cpp:121-125 | when SP does not point at itself, a push writes only RAM[SP] and SP, and SP grows by 1, modulo 2^16 |
| HackMachine.PoppedStack | src/vm/vm.cpp:70-74 | when the new SP is neither RAM[0] nor R15, the word stored is the old top of stack RAM[SP - 1] |
| HackMachine.AddRejected | src/vm/vm.cpp:12-16 | the assembler rejects the translation of `add`, for every counter and namespace |
| HackMachine.MPlusDInvalid | src/assemble.cpp:115-118 | `M+D` is not in the comp table (only `D+M` is), so `M=M+D` fails with `Invalid comp M+D` |

## Left out

- File I/O is not modelled: `ifstream`, `getline`, `ofstream` and the "could not find file" errors. Files are sequences of lines, and outputs are sequences of lines.
- The namespace of `vm` comes from the output path's stem (src/vm/vm.cpp:165-166). Here it is a parameter.
- Diagnostic printing is not modelled: `print`, `boost::format` and the `DEBUG` dump.
- The unreachable `default` branches are not modelled; the enumerations are closed datatypes. The same goes for the trailing `return std::nullopt` after the if/else chain of the assembly `parseLine`.
- `isspace` and `isalpha` follow the "C" locale. `boost::trim` trims those ASCII blanks.
- A push/pop line without a segment or index reads past the token vector, which is undefined behaviour in C++. Here it is the error `MissingOperand`.
- `@` with an empty value reads the terminating NUL; it is not alphabetic, so `stoi("")` throws `invalid_argument`. That is what the model gives (`InvalidNumber`).
- A label named `__variables_defined` collides with the variable counter, because the source keeps the counter in the same map. The model keeps that behaviour and proves nothing about such a label.
- HackMachine covers straight-line code only: built-in symbols and decimal literals, no jumps, no user symbols. Comparisons (they jump) and static push/pop (a user symbol) fall outside that fragment. By choice, and not because of the fragment, the model states no effect for `sub`, `neg`, `and`, `or`, `not` and pointer push/pop.
- HackMachine runs comp mnemonics, not the printed bits; a program using `!A` runs here as bitwise not, while the assembled binary computes `-A`.
- HackMachine.PushConstantEffect: stated for `i` up to 2^31 - 1. Above that, `stoi` rejects the literal, and the assembler fails on the emitted code.
- HackMachine.SimplePushRuns, HackMachine.SimplePopRuns, HackMachine.PushSegmentEffect and HackMachine.PopSegmentEffect: stated for indices up to 2^31 - 1, for the same reason. Within that range an index of 2^15 or more addresses base + (i mod 2^15), since the assembler keeps 15 bits of `@i`: `push temp 32768` pushes RAM[5], not RAM[32773].
- HackMachine.PushSegmentEffect, HackMachine.PopSegmentEffect and HackMachine.SimplePopRuns end in the exact final machine (`Pushed`, `Popped`), and only PushedStack and PoppedStack turn that into "SP one higher/lower". The aliasing cases are left in that exact form with nothing further proved: a push with SP = 0; a pop whose new SP is 0 or 15; a pop whose target is RAM[0] (it overwrites SP) or R15 (it overwrites the saved address, as `pop temp 10` does, since src/vm/vm.cpp:103 accepts any temp index).
- Vm.ComparisonLabelsIncrease and Vm.ComparisonsDistinct: stated only while the counter does not wrap past 2^32 - 1. After a wrap the labels repeat.
- Assemble.LabelsFrom, Assemble.Resolved and Assemble.VariableAddress: the label pass's `uint current_address` and the `int` variable address `16 + variables_defined` are unbounded here. The source wraps the first after 2^32 A/C instructions and overflows the second after 2^31 - 17 variables; the 15-bit A-encoding is applied to the unbounded value.
- Strings are sequences of characters, where `std::string` holds bytes. The two agree on ASCII text and can differ on multi-byte UTF-8 text. Take `(aé` with no closing `)`: the `substr(1, length - 2)` of src/parse.cpp:75 keeps `a` plus the first byte of `é`, while HackParse.ParseLine drops the whole `é` and gives the label `a`.
