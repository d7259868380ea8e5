/** The Hack assembler (src/assemble.cpp): a label pass that builds the user
    symbol table, a resolver that allocates variables, and an encoder that
    prints every A- and C-instruction as sixteen '0'/'1' characters. */
module Assemble {
  import opened Results
  import opened Text
  import opened Binary
  import opened HackParse

  /** std::map<std::string, int>. Addresses the model produces are never
      negative. */
  type SymbolMap = map<string, nat>

  const BuiltInSymbols: SymbolMap :=
    map["SP" := 0, "LCL" := 1, "ARG" := 2, "THIS" := 3, "THAT" := 4,
        "R0" := 0, "R1" := 1, "R2" := 2, "R3" := 3, "R4" := 4, "R5" := 5, "R6" := 6, "R7" := 7,
        "R8" := 8, "R9" := 9, "R10" := 10, "R11" := 11, "R12" := 12, "R13" := 13, "R14" := 14,
        "R15" := 15, "SCREEN" := 16384, "KBD" := 24576]

  /** The seven-bit `a c1..c6` codes, written in decimal. `!A` carries the
      code of `-A` (51 = 0b0110011), as the table is written. */
  const CompTable: map<string, nat> :=
    map["0" := 42, "1" := 63, "-1" := 58, "D" := 12, "A" := 48, "!D" := 13, "!A" := 51,
        "-D" := 15, "-A" := 51, "D+1" := 31, "A+1" := 55, "D-1" := 14, "A-1" := 50,
        "D+A" := 2, "D-A" := 19, "A-D" := 7, "D&A" := 0, "D|A" := 21,
        "M" := 112, "!M" := 113, "-M" := 115, "M+1" := 119, "M-1" := 114,
        "D+M" := 66, "D-M" := 83, "M-D" := 71, "D&M" := 64, "D|M" := 85]

  const DestTable: map<string, nat> :=
    map["M" := 1, "D" := 2, "MD" := 3, "A" := 4, "AM" := 5, "AD" := 6, "AMD" := 7]

  /** The entry of the user table that counts the variables allocated so far. */
  const VariablesKey: string := "__variables_defined"

  lemma TablesInRange()
    ensures forall c :: c in CompTable ==> CompTable[c] < 128
    ensures forall d :: d in DestTable ==> 1 <= DestTable[d] < 8
  {
  }

  // ---------------------------------------------------------------------
  // buildUserSymbols

  /** The number of A- and C-instructions, the ones that occupy a ROM word. */
  function CodeCount(insts: seq<Instruction>): nat
  {
    if insts == [] then 0 else (if insts[0].Label? then 0 else 1) + CodeCount(insts[1..])
  }

  /** The label pass from ROM address `address` on, inserting into `table`
      without overwriting what is there. */
  function LabelsFrom(insts: seq<Instruction>, table: SymbolMap, address: nat): (r: SymbolMap)
    ensures forall n :: n in table ==> n in r && r[n] == table[n]
  {
    if insts == [] then table
    else
      match insts[0]
      case Label(name) =>
        LabelsFrom(insts[1..], if name in table then table else table[name := address], address)
      case _ => LabelsFrom(insts[1..], table, address + 1)
  }

  /** The table buildUserSymbols returns. */
  function UserSymbols(insts: seq<Instruction>): (r: SymbolMap)
    ensures VariablesKey in r && r[VariablesKey] == 0
  {
    LabelsFrom(insts, map[VariablesKey := 0], 0)
  }

  method BuildUserSymbols(instructions: seq<Instruction>) returns (table: SymbolMap)
    ensures table == UserSymbols(instructions)
  {
    table := map[VariablesKey := 0];
    var currentAddress: nat := 0;
    var i := 0;
    assert instructions[0..] == instructions;
    while i < |instructions|
      invariant 0 <= i <= |instructions|
      invariant LabelsFrom(instructions[i..], table, currentAddress) == UserSymbols(instructions)
      decreases |instructions| - i
    {
      assert instructions[i..][1..] == instructions[i + 1..];
      match instructions[i] {
        case Label(name) =>
          if name !in table {
            table := table[name := currentAddress];
          }
        case _ =>
          currentAddress := currentAddress + 1;
      }
      i := i + 1;
    }
  }

  /** The label pass adds exactly the declared label names. */
  lemma {:induction false} LabelsFromKeeps(insts: seq<Instruction>, table: SymbolMap, address: nat)
    ensures forall n :: n in LabelsFrom(insts, table, address) <==> n in table || Label(n) in insts
  {
    if insts != [] {
      match insts[0]
      case Label(name) =>
        LabelsFromKeeps(insts[1..], if name in table then table else table[name := address], address);
      case _ =>
        LabelsFromKeeps(insts[1..], table, address + 1);
      assert forall x :: x in insts <==> x == insts[0] || x in insts[1..];
    }
  }

  /** A label first declared at position `i`, and not already in the table,
      gets the starting address plus the number of A/C instructions before it. */
  lemma {:induction false} LabelsFromAddress(insts: seq<Instruction>, table: SymbolMap, address: nat, i: nat)
    requires i < |insts| && insts[i].Label?
    requires insts[i].name !in table && Label(insts[i].name) !in insts[..i]
    ensures insts[i].name in LabelsFrom(insts, table, address)
    ensures LabelsFrom(insts, table, address)[insts[i].name] == address + CodeCount(insts[..i])
  {
    var name := insts[i].name;
    if i == 0 {
      LabelsFromKeeps(insts[1..], table[name := address], address);
    } else {
      assert insts[..i][0] == insts[0] && insts[..i][1..] == insts[1..][..i - 1];
      assert insts[1..][i - 1] == insts[i];
      match insts[0]
      case Label(n) =>
        LabelsFromAddress(insts[1..], if n in table then table else table[n := address], address, i - 1);
      case _ =>
        LabelsFromAddress(insts[1..], table, address + 1, i - 1);
    }
  }

  /** After the label pass each label maps to the number of A/C instructions
      before its first declaration; later declarations of the same name
      change nothing. */
  lemma LabelAddress(insts: seq<Instruction>, i: nat)
    requires i < |insts| && insts[i].Label? && insts[i].name != VariablesKey
    requires Label(insts[i].name) !in insts[..i]
    ensures insts[i].name in UserSymbols(insts)
    ensures UserSymbols(insts)[insts[i].name] == CodeCount(insts[..i])
  {
    LabelsFromAddress(insts, map[VariablesKey := 0], 0, i);
  }

  /** A label declared at `i` and again at `j` keeps the address of `i`. */
  lemma DuplicateLabel(insts: seq<Instruction>, i: nat, j: nat)
    requires i < j < |insts| && insts[i].Label? && insts[j] == insts[i]
    requires insts[i].name != VariablesKey && Label(insts[i].name) !in insts[..i]
    ensures insts[j].name in UserSymbols(insts)
    ensures UserSymbols(insts)[insts[j].name] == CodeCount(insts[..i])
    ensures CodeCount(insts[..i]) <= CodeCount(insts[..j])
  {
    LabelAddress(insts, i);
    CodeCountPrefix(insts, i, j);
  }

  lemma {:induction false} CodeCountPrefix(insts: seq<Instruction>, i: nat, j: nat)
    requires i <= j <= |insts|
    ensures CodeCount(insts[..i]) <= CodeCount(insts[..j])
  {
    if i > 0 {
      assert insts[..i][0] == insts[..j][0] == insts[0];
      assert insts[..i][1..] == insts[1..][..i - 1];
      assert insts[..j][1..] == insts[1..][..j - 1];
      CodeCountPrefix(insts[1..], i - 1, j - 1);
    }
  }

  /** The user table holds the variable counter at 0 and exactly the label
      names; a label spelled like the counter's key is therefore lost. */
  lemma UserSymbolsKeys(insts: seq<Instruction>)
    ensures VariablesKey in UserSymbols(insts) && UserSymbols(insts)[VariablesKey] == 0
    ensures forall n :: n in UserSymbols(insts) <==> n == VariablesKey || Label(n) in insts
  {
    LabelsFromKeeps(insts, map[VariablesKey := 0], 0);
  }

  // ---------------------------------------------------------------------
  // resolve_symbol

  /** The address resolve_symbol returns and the table it leaves behind. */
  function Resolved(symbols: SymbolMap, name: string): (r: (nat, SymbolMap))
    requires VariablesKey in symbols
    ensures VariablesKey in r.1
    ensures forall n :: n in symbols && n != VariablesKey ==> n in r.1 && r.1[n] == symbols[n]
  {
    if name in BuiltInSymbols then (BuiltInSymbols[name], symbols)
    else if name in symbols then (symbols[name], symbols)
    else
      var variablesDefined := symbols[VariablesKey];
      var variableValue := 16 + variablesDefined;
      (variableValue, symbols[name := variableValue][VariablesKey := variablesDefined + 1])
  }

  /** A built-in name resolves to its built-in address even when the user
      table has an entry of that name, and the table is left as it was. */
  lemma ResolveBuiltIn(symbols: SymbolMap, name: string)
    requires VariablesKey in symbols && name in BuiltInSymbols
    ensures Resolved(symbols, name) == (BuiltInSymbols[name], symbols)
  {
  }

  /** A name in the user table resolves to its entry and changes nothing. */
  lemma ResolveKnown(symbols: SymbolMap, name: string)
    requires VariablesKey in symbols && name !in BuiltInSymbols && name in symbols
    ensures Resolved(symbols, name) == (symbols[name], symbols)
  {
  }

  /** An unknown name becomes the next variable: address 16 plus the count,
      recorded in the table, and the count goes up by exactly one. */
  lemma ResolveFresh(symbols: SymbolMap, name: string)
    requires VariablesKey in symbols && name !in BuiltInSymbols && name !in symbols
    ensures var (address, table) := Resolved(symbols, name);
      address == 16 + symbols[VariablesKey]
      && name in table && table[name] == address
      && table[VariablesKey] == symbols[VariablesKey] + 1
      && table.Keys == symbols.Keys + {name}
  {
  }

  /** Resolving a name a second time gives the same address and changes
      nothing more. */
  lemma ResolveAgain(symbols: SymbolMap, name: string)
    requires VariablesKey in symbols
    ensures var (address, table) := Resolved(symbols, name);
      Resolved(table, name) == (address, table)
  {
  }

  /** The variable pass over a series of names, in order. */
  function ResolveEach(symbols: SymbolMap, names: seq<string>): (r: (seq<nat>, SymbolMap))
    requires VariablesKey in symbols
    ensures VariablesKey in r.1 && |r.0| == |names|
  {
    if names == [] then ([], symbols)
    else
      var (addresses, table) := ResolveEach(symbols, names[..|names| - 1]);
      var (address, table') := Resolved(table, names[|names| - 1]);
      (addresses + [address], table')
  }

  /** Resolving a name first, then a series, leaves the table resolving
      them all in one series does. */
  lemma {:induction false} ResolveEachCons(symbols: SymbolMap, name: string, names: seq<string>)
    requires VariablesKey in symbols
    ensures ResolveEach(symbols, [name] + names).1 == ResolveEach(Resolved(symbols, name).1, names).1
  {
    var all := [name] + names;
    if names == [] {
      assert all[..|all| - 1] == [];
    } else {
      assert all[..|all| - 1] == [name] + names[..|names| - 1];
      assert all[|all| - 1] == names[|names| - 1];
      ResolveEachCons(symbols, name, names[..|names| - 1]);
    }
  }

  /** The names in order of first appearance, each once. */
  function FirstOccurrences(names: seq<string>): (r: seq<string>)
    ensures forall x :: x in r <==> x in names
    ensures forall i, j :: 0 <= i < j < |r| ==> r[i] != r[j]
  {
    if names == [] then []
    else
      var prefix := FirstOccurrences(names[..|names| - 1]);
      var last := names[|names| - 1];
      assert forall x :: x in names <==> x in names[..|names| - 1] || x == last;
      if last in prefix then prefix else prefix + [last]
  }

  /** The names among `names` that are neither built in nor in `symbols`:
      the ones resolve_symbol allocates as variables on first sight. */
  function Variables(symbols: SymbolMap, names: seq<string>): (r: seq<string>)
    ensures forall x :: x in r <==> x in names && x !in BuiltInSymbols && x !in symbols
  {
    if names == [] then []
    else
      var prefix := names[..|names| - 1];
      var last := names[|names| - 1];
      assert forall x :: x in names <==> x in prefix || x == last;
      Variables(symbols, prefix) + (if last !in BuiltInSymbols && last !in symbols then [last] else [])
  }

  /** The variables `order` hold consecutive addresses from 16 plus the
      starting count, and the count has grown by their number. */
  ghost predicate CountsVariables(symbols: SymbolMap, order: seq<string>, table: SymbolMap)
    requires VariablesKey in symbols
  {
    VariablesKey in table && table[VariablesKey] == symbols[VariablesKey] + |order|
    && forall k :: 0 <= k < |order| ==> order[k] in table && table[order[k]] == 16 + symbols[VariablesKey] + k
  }

  /** Every starting entry but the count is kept. */
  ghost predicate KeepsEntries(symbols: SymbolMap, table: SymbolMap)
  {
    forall n :: n in symbols && n != VariablesKey ==> n in table && table[n] == symbols[n]
  }

  /** Each occurrence of a built-in name got its built-in address, every
      other occurrence its name's entry in the table. */
  ghost predicate AddressesFrom(names: seq<string>, addresses: seq<nat>, table: SymbolMap)
  {
    |addresses| == |names|
    && forall i :: 0 <= i < |names| ==>
      if names[i] in BuiltInSymbols then addresses[i] == BuiltInSymbols[names[i]]
      else names[i] in table && addresses[i] == table[names[i]]
  }

  /** The table holds the starting names and the variables, nothing else. */
  ghost predicate KeysFrom(symbols: SymbolMap, variables: seq<string>, table: SymbolMap)
  {
    forall n :: n in table <==> n in symbols || n in variables
  }

  /** After resolving `names` (none of them the counter's key) the
      addresses and the table are these: the variables among the names, in
      order of first appearance, hold consecutive addresses from 16 plus
      the count; the count has grown by their number; the starting entries
      are kept; every occurrence of a built-in name got its built-in
      address and every other occurrence its name's entry; and the table
      holds nothing else new. */
  ghost predicate AllocatedInOrder(symbols: SymbolMap, names: seq<string>, addresses: seq<nat>, table: SymbolMap)
    requires VariablesKey in symbols
  {
    CountsVariables(symbols, FirstOccurrences(Variables(symbols, names)), table)
    && KeepsEntries(symbols, table)
    && AddressesFrom(names, addresses, table)
    && KeysFrom(symbols, Variables(symbols, names), table)
  }

  /** Resolving a series of names allocates the variables among them at
      consecutive addresses from 16 plus the count, in order of first
      appearance; built-in names and names already in the table (the
      labels) resolve to their entries and allocate nothing. */
  lemma {:induction false} VariablesInOrder(symbols: SymbolMap, names: seq<string>)
    requires VariablesKey in symbols
    requires forall i :: 0 <= i < |names| ==> names[i] != VariablesKey
    ensures AllocatedInOrder(symbols, names, ResolveEach(symbols, names).0, ResolveEach(symbols, names).1)
  {
    if names == [] {
      assert Variables(symbols, names) == [];
    } else {
      var prefix := names[..|names| - 1];
      var last := names[|names| - 1];
      assert names == prefix + [last];
      assert forall i :: 0 <= i < |prefix| ==> prefix[i] == names[i];
      VariablesInOrder(symbols, prefix);
      var (addresses, table) := ResolveEach(symbols, prefix);
      if last in BuiltInSymbols || last in symbols || last in Variables(symbols, prefix) {
        VariableKnownStep(symbols, prefix, last, addresses, table);
      } else {
        VariableFreshStep(symbols, prefix, last, addresses, table);
      }
    }
  }

  /** The variables among one more name. */
  lemma VariablesSnoc(symbols: SymbolMap, prefix: seq<string>, last: string)
    ensures Variables(symbols, prefix + [last]) ==
      Variables(symbols, prefix) + (if last !in BuiltInSymbols && last !in symbols then [last] else [])
  {
    var names := prefix + [last];
    assert names[..|names| - 1] == prefix;
  }

  /** The order of first appearance of one more name. */
  lemma FirstOccurrencesSnoc(names: seq<string>, last: string)
    ensures FirstOccurrences(names + [last]) ==
      if last in names then FirstOccurrences(names) else FirstOccurrences(names) + [last]
  {
    var all := names + [last];
    assert all[..|all| - 1] == names;
  }

  /** A built-in name, a name of the starting table or a variable seen
      before resolves to the address it already has and changes nothing. */
  lemma VariableKnownStep(symbols: SymbolMap, prefix: seq<string>, last: string, addresses: seq<nat>, table: SymbolMap)
    requires VariablesKey in symbols && AllocatedInOrder(symbols, prefix, addresses, table)
    requires last != VariablesKey
    requires last in BuiltInSymbols || last in symbols || last in Variables(symbols, prefix)
    ensures Resolved(table, last).1 == table
    ensures AllocatedInOrder(symbols, prefix + [last], addresses + [Resolved(table, last).0], table)
  {
    var vs := Variables(symbols, prefix);
    VariablesSnoc(symbols, prefix, last);
    var vs' := Variables(symbols, prefix + [last]);
    assert vs' == vs || vs' == vs + [last];
    assert FirstOccurrences(vs') == FirstOccurrences(vs) by {
      if vs' != vs {
        FirstOccurrencesSnoc(vs, last);
      }
    }
    assert forall n :: n in vs' <==> n in vs;
    assert last !in BuiltInSymbols ==> last in table;
    AddressesSnoc(prefix, addresses, table, last, Resolved(table, last).0);
  }

  /** One more address that agrees with the table. */
  lemma AddressesSnoc(names: seq<string>, addresses: seq<nat>, table: SymbolMap, last: string, address: nat)
    requires AddressesFrom(names, addresses, table)
    requires if last in BuiltInSymbols then address == BuiltInSymbols[last] else last in table && address == table[last]
    ensures AddressesFrom(names + [last], addresses + [address], table)
  {
    var all := names + [last];
    assert forall i :: 0 <= i < |names| ==> all[i] == names[i] && (addresses + [address])[i] == addresses[i];
  }

  /** A name seen for the first time, neither built in nor in the starting
      table, gets the next address. */
  lemma VariableFreshStep(symbols: SymbolMap, prefix: seq<string>, last: string, addresses: seq<nat>, table: SymbolMap)
    requires VariablesKey in symbols && AllocatedInOrder(symbols, prefix, addresses, table)
    requires forall i :: 0 <= i < |prefix| ==> prefix[i] != VariablesKey
    requires last != VariablesKey && last !in BuiltInSymbols && last !in symbols && last !in Variables(symbols, prefix)
    ensures AllocatedInOrder(symbols, prefix + [last], addresses + [Resolved(table, last).0], Resolved(table, last).1)
  {
    var vs := Variables(symbols, prefix);
    var order := FirstOccurrences(vs);
    assert last !in table && VariablesKey !in order && last !in order;
    var count := table[VariablesKey];
    var address := ResolvedNew(table, last);
    var table' := Resolved(table, last).1;
    VariablesSnoc(symbols, prefix, last);
    FirstOccurrencesSnoc(vs, last);
    CountsFresh(symbols, order, table, last, address, table');
    KeepsFresh(symbols, table, last, address, table');
    AddressesFresh(prefix, addresses, table, last, address, table');
    KeysFresh(symbols, vs, table, last, address, table');
    Allocated(symbols, prefix + [last], addresses + [address], table', vs + [last], order + [last]);
  }

  /** resolve_symbol on a name new to the table. */
  lemma ResolvedNew(table: SymbolMap, name: string) returns (address: nat)
    requires VariablesKey in table && name !in BuiltInSymbols && name !in table
    ensures address == 16 + table[VariablesKey] && Resolved(table, name).0 == address
    ensures Resolved(table, name).1 == table[name := address][VariablesKey := table[VariablesKey] + 1]
  {
    address := 16 + table[VariablesKey];
  }

  /** The parts of AllocatedInOrder, put together. */
  lemma Allocated(symbols: SymbolMap, names: seq<string>, addresses: seq<nat>, table: SymbolMap,
                  variables: seq<string>, order: seq<string>)
    requires VariablesKey in symbols
    requires Variables(symbols, names) == variables && FirstOccurrences(variables) == order
    requires CountsVariables(symbols, order, table) && KeepsEntries(symbols, table)
    requires AddressesFrom(names, addresses, table) && KeysFrom(symbols, variables, table)
    ensures AllocatedInOrder(symbols, names, addresses, table)
  {
  }

  /** The next variable takes the next address and the count grows by one. */
  lemma CountsFresh(symbols: SymbolMap, order: seq<string>, table: SymbolMap, last: string, address: nat, table': SymbolMap)
    requires VariablesKey in symbols && CountsVariables(symbols, order, table)
    requires last != VariablesKey && last !in order && VariablesKey !in order
    requires address == 16 + table[VariablesKey] && table' == table[last := address][VariablesKey := table[VariablesKey] + 1]
    ensures CountsVariables(symbols, order + [last], table')
  {
    var all := order + [last];
    assert forall k :: 0 <= k < |order| ==> all[k] == order[k] && all[k] != last && all[k] != VariablesKey;
  }

  /** Adding a name that is not a starting entry keeps the starting entries. */
  lemma KeepsFresh(symbols: SymbolMap, table: SymbolMap, last: string, address: nat, table': SymbolMap)
    requires KeepsEntries(symbols, table) && last !in symbols && VariablesKey in table
    requires table' == table[last := address][VariablesKey := table[VariablesKey] + 1]
    ensures KeepsEntries(symbols, table')
  {
  }

  /** Adding a new name and changing the count keeps the earlier addresses. */
  lemma AddressesFresh(names: seq<string>, addresses: seq<nat>, table: SymbolMap, last: string, address: nat, table': SymbolMap)
    requires AddressesFrom(names, addresses, table) && last !in table && VariablesKey in table
    requires forall i :: 0 <= i < |names| ==> names[i] != VariablesKey
    requires last != VariablesKey && last !in BuiltInSymbols
    requires table' == table[last := address][VariablesKey := table[VariablesKey] + 1]
    ensures AddressesFrom(names + [last], addresses + [address], table')
  {
    var all := names + [last];
    assert forall i :: 0 <= i < |names| ==> all[i] == names[i] && (addresses + [address])[i] == addresses[i];
    assert forall i :: 0 <= i < |names| && names[i] !in BuiltInSymbols ==> names[i] != last;
  }

  /** Adding a variable and changing the count adds the variable's name. */
  lemma KeysFresh(symbols: SymbolMap, variables: seq<string>, table: SymbolMap, last: string, address: nat, table': SymbolMap)
    requires KeysFrom(symbols, variables, table) && VariablesKey in symbols && VariablesKey in table
    requires table' == table[last := address][VariablesKey := table[VariablesKey] + 1]
    ensures KeysFrom(symbols, variables + [last], table')
  {
    assert forall n :: n in variables + [last] <==> n in variables || n == last;
  }

  /** The user symbol table, updated in place by resolve_symbol. */
  class SymbolTable {
    var symbols: SymbolMap

    constructor (initial: SymbolMap)
      ensures symbols == initial
    {
      symbols := initial;
    }

    /** resolve_symbol. */
    method Resolve(name: string) returns (address: nat)
      requires VariablesKey in symbols
      modifies this
      ensures (address, symbols) == Resolved(old(symbols), name)
    {
      if name in BuiltInSymbols {
        return BuiltInSymbols[name];
      }
      if name in symbols {
        return symbols[name];
      }
      var variablesDefined := symbols[VariablesKey];
      address := 16 + variablesDefined;
      symbols := symbols[name := address];
      symbols := symbols[VariablesKey := variablesDefined + 1];
    }
  }

  // ---------------------------------------------------------------------
  // assemble_to_strings: the bit encoders

  /** The printed A-instruction: `std::bitset<16>` keeps the low 16 bits of
      the address (of its two's complement when negative), then bit 15 is
      cleared. */
  function EncodeA(address: int): string
  {
    var low := address % 0x1_0000;
    ToBinary(if low >= 0x8000 then low - 0x8000 else low, 16)
  }

  /** An A-instruction is a 0 followed by the address modulo 2^15 on fifteen
      bits; larger addresses are truncated, not rejected. */
  lemma EncodeALayout(address: int)
    ensures EncodeA(address) == "0" + ToBinary(address % 0x8000, 15)
    ensures IsBitString(EncodeA(address)) && |EncodeA(address)| == 16
    ensures FromBinary(EncodeA(address)) == address % 0x8000
  {
    var bits := address % 0x8000;
    EncodeABits(address);
    FromToBinarySmall(bits, 16);
    ToBinaryShape(bits, 16);
  }

  lemma EncodeABits(address: int)
    ensures EncodeA(address) == ToBinary(address % 0x8000, 16)
    ensures EncodeA(address) == "0" + ToBinary(address % 0x8000, 15)
  {
    var bits := address % 0x8000;
    LowBits(address);
    assert EncodeA(address) == ToBinary(bits, 16);
    Pow2Values();
    ToBinaryConcat(0, bits, 1, 15);
    assert 0 * Pow2(15) + bits == bits;
    assert ToBinary(0, 1) == "0";
  }

  /** Dropping bit 15 of the low 16 bits leaves the low 15 bits. */
  lemma LowBits(address: int)
    ensures var low := address % 0x1_0000;
      (if low >= 0x8000 then low - 0x8000 else low) == address % 0x8000
  {
    var q, low := address / 0x1_0000, address % 0x1_0000;
    var b := if low >= 0x8000 then 1 else 0;
    var bits := low - 0x8000 * b;
    assert address == 0x8000 * (2 * q + b) + bits;
    DivModUnique(address, 0x8000, 2 * q + b, bits);
  }

  /** The jump field: the enum index plus one, or 0 without a jump. */
  function JumpBits(jump: Option<Jump>): (r: nat)
    ensures r < 8
  {
    if jump.Some? then JumpIndex(jump.value) + 1 else 0
  }

  /** The dest field of a dest that passed the table check. */
  function DestBits(dest: Option<string>): nat
  {
    if dest.Some? && dest.value in DestTable then DestTable[dest.value] else 0
  }

  /** The printed C-instruction: jump, comp shifted by 6 and dest shifted by 3
      ORed together (the fields do not overlap, so OR is addition) with the
      three leading ones. The comp is checked before the dest. */
  function EncodeC(dest: Option<string>, comp: string, jump: Option<Jump>): Result<string>
  {
    if comp !in CompTable then Err(InvalidComp(comp))
    else if dest.Some? && dest.value !in DestTable then Err(InvalidDest(dest.value))
    else Ok(ToBinary(JumpBits(jump) + CompTable[comp] * 64 + DestBits(dest) * 8 + 0xE000, 16))
  }

  /** Encoding fails exactly on an unknown comp, which is reported first,
      or on an unknown dest. */
  lemma EncodeCErrors(dest: Option<string>, comp: string, jump: Option<Jump>)
    ensures comp !in CompTable ==> EncodeC(dest, comp, jump) == Err(InvalidComp(comp))
    ensures comp in CompTable && dest.Some? && dest.value !in DestTable ==>
      EncodeC(dest, comp, jump) == Err(InvalidDest(dest.value))
    ensures EncodeC(dest, comp, jump).Ok? <==> comp in CompTable && (dest.Some? ==> dest.value in DestTable)
  {
  }

  /** A C-instruction has bits 15-13 set to 111, bits 12-6 holding the comp
      code, bits 5-3 the dest code (0 without dest) and bits 2-0 the jump
      index plus one (0 without jump). */
  lemma EncodeCLayout(dest: Option<string>, comp: string, jump: Option<Jump>)
    requires EncodeC(dest, comp, jump).Ok?
    ensures var s := EncodeC(dest, comp, jump).value;
      s == "111" + ToBinary(CompTable[comp], 7) + ToBinary(DestBits(dest), 3) + ToBinary(JumpBits(jump), 3)
      && |s| == 16 && IsBitString(s)
      && FromBinary(s[3..10]) == CompTable[comp]
      && FromBinary(s[10..13]) == DestBits(dest)
      && FromBinary(s[13..]) == JumpBits(jump)
  {
    var c, d, j := CompTable[comp], DestBits(dest), JumpBits(jump);
    assert c < 128 && d < 8 by {
      TablesInRange();
    }
    assert EncodeC(dest, comp, jump).value == ToBinary(j + c * 64 + d * 8 + 0xE000, 16);
    CFieldsLayout(c, d, j);
    CFieldsRead(c, d, j);
  }

  /** The fields added at their shifts print side by side. */
  lemma CFieldsLayout(c: nat, d: nat, j: nat)
    requires c < 128 && d < 8 && j < 8
    ensures ToBinary(j + c * 64 + d * 8 + 0xE000, 16) == "111" + ToBinary(c, 7) + ToBinary(d, 3) + ToBinary(j, 3)
  {
    var upper := (7 * 128 + c) * 8 + d;
    UpperFields(c, d);
    ShiftedField(upper, j, 13);
    assert j + c * 64 + d * 8 + 0xE000 == upper * 8 + j;
  }

  /** The opcode, comp and dest fields: the top thirteen bits. */
  lemma UpperFields(c: nat, d: nat)
    requires c < 128 && d < 8
    ensures ToBinary((7 * 128 + c) * 8 + d, 13) == "111" + ToBinary(c, 7) + ToBinary(d, 3)
  {
    ShiftedField(7 * 128 + c, d, 10);
    OpcodeAndComp(c);
  }

  /** A three-bit field below a `w`-bit one. */
  lemma ShiftedField(hi: nat, lo: nat, w: nat)
    requires lo < 8
    ensures ToBinary(hi * 8 + lo, w + 3) == ToBinary(hi, w) + ToBinary(lo, 3)
  {
    Pow2Values();
    ToBinaryConcat(hi, lo, w, 3);
  }

  lemma OpcodeAndComp(c: nat)
    requires c < 128
    ensures ToBinary(7 * 128 + c, 10) == "111" + ToBinary(c, 7)
  {
    Pow2Values();
    ToBinaryConcat(7, c, 3, 7);
    assert ToBinary(7, 3) == "111";
  }

  /** Each field reads back from its own slice. */
  lemma CFieldsRead(c: nat, d: nat, j: nat)
    requires c < 128 && d < 8 && j < 8
    ensures var s := "111" + ToBinary(c, 7) + ToBinary(d, 3) + ToBinary(j, 3);
      |s| == 16 && IsBitString(s)
      && FromBinary(s[3..10]) == c && FromBinary(s[10..13]) == d && FromBinary(s[13..]) == j
  {
    assert FromBinary(ToBinary(c, 7)) == c && FromBinary(ToBinary(d, 3)) == d && FromBinary(ToBinary(j, 3)) == j by {
      Pow2Values();
      FromToBinarySmall(c, 7);
      FromToBinarySmall(d, 3);
      FromToBinarySmall(j, 3);
    }
    ToBinaryShape(c, 7);
    ToBinaryShape(d, 3);
    ToBinaryShape(j, 3);
    CFieldSlices(ToBinary(c, 7), ToBinary(d, 3), ToBinary(j, 3));
  }

  /** The three fields after the opcode sit at 3..10, 10..13 and 13..16. */
  lemma CFieldSlices(comp: string, dest: string, jump: string)
    requires |comp| == 7 && |dest| == 3 && |jump| == 3
    requires IsBitString(comp) && IsBitString(dest) && IsBitString(jump)
    ensures var s := "111" + comp + dest + jump;
      |s| == 16 && IsBitString(s) && s[3..10] == comp && s[10..13] == dest && s[13..] == jump
  {
    var s := "111" + comp + dest + jump;
    assert forall i :: 3 <= i < 10 ==> s[i] == comp[i - 3];
    assert forall i :: 10 <= i < 13 ==> s[i] == dest[i - 10];
    assert forall i :: 13 <= i < 16 ==> s[i] == jump[i - 13];
  }

  // ---------------------------------------------------------------------
  // assemble_to_strings: the loop

  /** The address of an A-instruction's value: resolved when it starts with
      a letter, otherwise read by stoi (an empty value reads as the
      terminating '\0', which is no letter, so stoi fails on it). */
  function AddressOf(value: string, symbols: SymbolMap): (r: Result<(int, SymbolMap)>)
    requires VariablesKey in symbols
    ensures r.Ok? ==> VariablesKey in r.value.1
  {
    if |value| > 0 && IsAlpha(value[0]) then Ok(Resolved(symbols, value))
    else
      match Stoi(value)
      case Err(e) => Err(e)
      case Ok(n) => Ok((n, symbols))
  }

  /** The printed bits of one instruction (none for a label) and the table
      after it. */
  function AssembleOne(inst: Instruction, symbols: SymbolMap): (r: Result<(Option<string>, SymbolMap)>)
    requires VariablesKey in symbols
    ensures r.Ok? ==> VariablesKey in r.value.1
  {
    match inst
    case Label(_) => Ok((None, symbols))
    case CInstruction(dest, comp, jump) =>
      (match EncodeC(dest, comp, jump)
       case Err(e) => Err(e)
       case Ok(bits) => Ok((Some(bits), symbols)))
    case AInstruction(value) =>
      match AddressOf(value, symbols)
      case Err(e) => Err(e)
      case Ok((address, symbols')) => Ok((Some(EncodeA(address)), symbols'))
  }

  /** The name an instruction hands to resolve_symbol: the value of an
      A-instruction that starts with a letter. */
  function SymbolRef(inst: Instruction): (r: seq<string>)
    ensures |r| <= 1 && forall j :: 0 <= j < |r| ==> |r[j]| > 0 && IsAlpha(r[j][0])
  {
    if inst.AInstruction? && |inst.value| > 0 && IsAlpha(inst.value[0]) then [inst.value] else []
  }

  /** The names a run of instructions hands to resolve_symbol, in order. */
  function SymbolRefs(insts: seq<Instruction>): (r: seq<string>)
    ensures forall j :: 0 <= j < |r| ==> |r[j]| > 0 && IsAlpha(r[j][0])
  {
    if insts == [] then []
    else
      var head := SymbolRef(insts[0]);
      var rest := SymbolRefs(insts[1..]);
      assert forall j :: |head| <= j < |head + rest| ==> (head + rest)[j] == rest[j - |head|];
      head + rest
  }

  lemma {:induction false} SymbolRefsAppend(a: seq<Instruction>, b: seq<Instruction>)
    ensures SymbolRefs(a + b) == SymbolRefs(a) + SymbolRefs(b)
  {
    if a == [] {
      assert a + b == b;
    } else {
      assert (a + b)[0] == a[0] && (a + b)[1..] == a[1..] + b;
      SymbolRefsAppend(a[1..], b);
    }
  }

  /** The output of assemble_to_strings: each instruction's bits in order,
      the table threaded from one to the next; the first failure is the
      result. */
  function AssembledFrom(insts: seq<Instruction>, symbols: SymbolMap): Result<seq<string>>
    requires VariablesKey in symbols
  {
    if insts == [] then Ok([])
    else
      match AssembleOne(insts[0], symbols)
      case Err(e) => Err(e)
      case Ok((None, symbols')) => AssembledFrom(insts[1..], symbols')
      case Ok((Some(bits), symbols')) => Prepend([bits], AssembledFrom(insts[1..], symbols'))
  }

  /** Consuming one instruction: its bits (if any) join the output so far,
      and the rest is assembled with the table it leaves. */
  lemma AssembledConsume(results: seq<string>, insts: seq<Instruction>, symbols: SymbolMap, out: Option<string>, symbols': SymbolMap)
    requires VariablesKey in symbols && insts != []
    requires AssembleOne(insts[0], symbols) == Ok((out, symbols'))
    ensures VariablesKey in symbols'
    ensures Prepend(results, AssembledFrom(insts, symbols))
      == Prepend(results + (if out.Some? then [out.value] else []), AssembledFrom(insts[1..], symbols'))
  {
    if out.Some? {
      PrependPrepend(results, [out.value], AssembledFrom(insts[1..], symbols'));
    } else {
      assert results + [] == results;
    }
  }

  method AssembleToStrings(instructions: seq<Instruction>, userSymbols: SymbolMap)
    returns (r: Result<seq<string>>)
    requires VariablesKey in userSymbols
    ensures r == AssembledFrom(instructions, userSymbols)
  {
    var table := new SymbolTable(userSymbols);
    var results: seq<string> := [];
    var i := 0;
    assert instructions[0..] == instructions;
    PrependNothing(AssembledFrom(instructions, userSymbols));
    while i < |instructions|
      invariant 0 <= i <= |instructions|
      invariant VariablesKey in table.symbols
      invariant AssembledFrom(instructions, userSymbols) == Prepend(results, AssembledFrom(instructions[i..], table.symbols))
      decreases |instructions| - i
    {
      assert instructions[i..][1..] == instructions[i + 1..];
      assert instructions[i..][0] == instructions[i];
      ghost var before := table.symbols;
      match instructions[i] {
        case AInstruction(value) =>
          var address: int;
          if |value| > 0 && IsAlpha(value[0]) {
            address := table.Resolve(value);
          } else {
            match Stoi(value) {
              case Err(e) =>
                return Err(e);
              case Ok(n) =>
                address := n;
            }
          }
          assert AssembleOne(instructions[i], before) == Ok((Some(EncodeA(address)), table.symbols));
          AssembledConsume(results, instructions[i..], before, Some(EncodeA(address)), table.symbols);
          results := results + [EncodeA(address)];
        case CInstruction(dest, comp, jump) =>
          match EncodeC(dest, comp, jump) {
            case Err(e) =>
              return Err(e);
            case Ok(bits) =>
              AssembledConsume(results, instructions[i..], before, Some(bits), before);
              results := results + [bits];
          }
        case Label(_) =>
          AssembledConsume(results, instructions[i..], before, None, before);
      }
      i := i + 1;
    }
    assert instructions[i..] == [];
    assert results + [] == results;
    r := Ok(results);
  }

  /** The output holds one string per A- or C-instruction and nothing for a
      label; every string is sixteen '0'/'1' characters. */
  lemma {:induction false} AssembledShape(insts: seq<Instruction>, symbols: SymbolMap)
    requires VariablesKey in symbols && AssembledFrom(insts, symbols).Ok?
    ensures |AssembledFrom(insts, symbols).value| == CodeCount(insts)
    ensures forall k :: 0 <= k < |AssembledFrom(insts, symbols).value| ==>
      |AssembledFrom(insts, symbols).value[k]| == 16 && IsBitString(AssembledFrom(insts, symbols).value[k])
  {
    if insts != [] {
      var one := AssembleOne(insts[0], symbols);
      AssembledShape(insts[1..], one.value.1);
      match insts[0]
      case Label(_) =>
      case CInstruction(d, c, j) => EncodeCLayout(d, c, j);
      case AInstruction(_) => EncodeALayout(AddressOf(insts[0].value, symbols).value.0);
    }
  }

  /** Instruction `i` is assembled against the table that resolving the
      names of the instructions before it leaves, which still agrees with
      the starting one on every starting entry; its bits, if any, are output
      number CodeCount(insts[..i]). */
  lemma {:induction false} AssembledAt(insts: seq<Instruction>, symbols: SymbolMap, i: nat)
    returns (table: SymbolMap)
    requires VariablesKey in symbols && AssembledFrom(insts, symbols).Ok? && i < |insts|
    ensures VariablesKey in table && table == ResolveEach(symbols, SymbolRefs(insts[..i])).1
    ensures forall n :: n in symbols && n != VariablesKey ==> n in table && table[n] == symbols[n]
    ensures AssembleOne(insts[i], table).Ok?
    ensures var out := AssembledFrom(insts, symbols).value;
      AssembleOne(insts[i], table).value.0.Some? ==>
        CodeCount(insts[..i]) < |out| && out[CodeCount(insts[..i])] == AssembleOne(insts[i], table).value.0.value
  {
    AssembledHead(insts, symbols);
    var (bits, next) := AssembleOne(insts[0], symbols).value;
    AssembleOneKeeps(insts[0], symbols);
    if i == 0 {
      table := symbols;
      assert insts[..0] == [];
    } else {
      assert insts[1..][i - 1] == insts[i];
      table := AssembledAt(insts[1..], next, i - 1);
      assert table == ResolveEach(symbols, SymbolRefs(insts[..i])).1 by {
        AssembleOneNext(insts[0], symbols);
        ResolveEachHead(insts, symbols, i, next);
      }
      var word := AssembleOne(insts[i], table).value.0;
      if word.Some? {
        CodeCountHead(insts, i);
        OutputShift(AssembledFrom(insts, symbols).value, if bits.Some? then [bits.value] else [],
          AssembledFrom(insts[1..], next).value, CodeCount(insts[..i]), CodeCount(insts[1..][..i - 1]), word.value);
      }
    }
  }

  /** An entry of the rest of the output, seen in the whole output. */
  lemma OutputShift(out: seq<string>, head: seq<string>, rest: seq<string>, k: nat, k': nat, w: string)
    requires out == head + rest && k == |head| + k' && k' < |rest| && rest[k'] == w
    ensures k < |out| && out[k] == w
  {
  }

  /** The table after the first instruction, then the names of the next
      i - 1, is the table after the names of the first i. */
  lemma ResolveEachHead(insts: seq<Instruction>, symbols: SymbolMap, i: nat, next: SymbolMap)
    requires VariablesKey in symbols && 0 < i <= |insts|
    requires next == if SymbolRef(insts[0]) == [] then symbols else Resolved(symbols, insts[0].value).1
    ensures ResolveEach(next, SymbolRefs(insts[1..][..i - 1])).1 == ResolveEach(symbols, SymbolRefs(insts[..i])).1
  {
    var rest := SymbolRefs(insts[1..][..i - 1]);
    assert insts[..i][0] == insts[0] && insts[..i][1..] == insts[1..][..i - 1];
    assert SymbolRefs(insts[..i]) == SymbolRef(insts[0]) + rest;
    if SymbolRef(insts[0]) == [] {
      assert [] + rest == rest;
    } else {
      assert SymbolRef(insts[0]) == [insts[0].value];
      ResolveEachCons(symbols, insts[0].value, rest);
    }
  }

  /** The table one instruction leaves: resolve_symbol's for a name,
      the same table otherwise. */
  lemma AssembleOneNext(inst: Instruction, symbols: SymbolMap)
    requires VariablesKey in symbols && AssembleOne(inst, symbols).Ok?
    ensures AssembleOne(inst, symbols).value.1 == if SymbolRef(inst) == [] then symbols else Resolved(symbols, inst.value).1
  {
  }

  /** The first instruction's word (none for a label) heads the output. */
  lemma AssembledHead(insts: seq<Instruction>, symbols: SymbolMap)
    requires VariablesKey in symbols && insts != [] && AssembledFrom(insts, symbols).Ok?
    ensures AssembleOne(insts[0], symbols).Ok?
    ensures var (bits, next) := AssembleOne(insts[0], symbols).value;
      (bits.Some? <==> !insts[0].Label?)
      && AssembledFrom(insts[1..], next).Ok?
      && AssembledFrom(insts, symbols).value
        == (if bits.Some? then [bits.value] else []) + AssembledFrom(insts[1..], next).value
  {
    var (bits, next) := AssembleOne(insts[0], symbols).value;
    if bits.None? {
      assert [] + AssembledFrom(insts[1..], next).value == AssembledFrom(insts[1..], next).value;
    }
  }

  /** Assembling one instruction keeps every entry of the table but the
      variable counter. */
  lemma AssembleOneKeeps(inst: Instruction, symbols: SymbolMap)
    requires VariablesKey in symbols && AssembleOne(inst, symbols).Ok?
    ensures var next := AssembleOne(inst, symbols).value.1;
      forall n :: n in symbols && n != VariablesKey ==> n in next && next[n] == symbols[n]
  {
  }

  lemma CodeCountHead(insts: seq<Instruction>, i: nat)
    requires 0 < i <= |insts|
    ensures CodeCount(insts[..i]) == (if insts[0].Label? then 0 else 1) + CodeCount(insts[1..][..i - 1])
  {
    assert insts[..i][0] == insts[0] && insts[..i][1..] == insts[1..][..i - 1];
  }

  /** A C-instruction that does not encode makes the whole assembly fail. */
  lemma {:induction false} AssembledRejects(insts: seq<Instruction>, symbols: SymbolMap, i: nat)
    requires VariablesKey in symbols && i < |insts| && insts[i].CInstruction?
    requires EncodeC(insts[i].dest, insts[i].comp, insts[i].jump).Err?
    ensures AssembledFrom(insts, symbols).Err?
  {
    var one := AssembleOne(insts[0], symbols);
    if one.Ok? {
      assert insts[1..][i - 1] == insts[i];
      AssembledRejects(insts[1..], one.value.1, i - 1);
    }
  }

  /** A line that parses to a C-instruction that does not encode makes the
      assembly of the file fail. */
  lemma AssembleRejectsLine(lines: seq<string>, j: nat, inst: Instruction)
    requires j < |lines| && ParseLine(lines[j]) == Ok(Some(inst)) && inst.CInstruction?
    requires EncodeC(inst.dest, inst.comp, inst.jump).Err?
    ensures Assemble(lines).Err?
  {
    if ParseLines(lines).Ok? {
      var insts := ParseLines(lines).value;
      var k := CollectHas(lines, ParseLine, j, inst);
      AssembledRejects(insts, UserSymbols(insts), k);
    }
  }

  /** A C-instruction's output string is its encoding. */
  lemma AssembledC(insts: seq<Instruction>, symbols: SymbolMap, i: nat)
    requires VariablesKey in symbols && AssembledFrom(insts, symbols).Ok?
    requires i < |insts| && insts[i].CInstruction?
    ensures var out := AssembledFrom(insts, symbols).value;
      CodeCount(insts[..i]) < |out|
      && EncodeC(insts[i].dest, insts[i].comp, insts[i].jump) == Ok(out[CodeCount(insts[..i])])
  {
    var _ := AssembledAt(insts, symbols, i);
  }

  /** An A-instruction whose value does not start with a letter prints the
      value stoi reads from it. */
  lemma AssembledNumber(insts: seq<Instruction>, symbols: SymbolMap, i: nat)
    requires VariablesKey in symbols && AssembledFrom(insts, symbols).Ok?
    requires i < |insts| && insts[i].AInstruction?
    requires var v := insts[i].value; !(|v| > 0 && IsAlpha(v[0]))
    ensures Stoi(insts[i].value).Ok?
    ensures var out := AssembledFrom(insts, symbols).value;
      CodeCount(insts[..i]) < |out| && out[CodeCount(insts[..i])] == EncodeA(Stoi(insts[i].value).value)
  {
    var _ := AssembledAt(insts, symbols, i);
  }

  /** Against the table of the label pass, a reference to a label, before or
      after its declaration, prints the address of the label's first
      declaration. */
  lemma LabelReference(insts: seq<Instruction>, i: nat, p: nat)
    requires AssembledFrom(insts, UserSymbols(insts)).Ok?
    requires i < |insts| && p < |insts| && insts[p].Label? && insts[i] == AInstruction(insts[p].name)
    requires Label(insts[p].name) !in insts[..p]
    requires var n := insts[p].name; n != VariablesKey && n !in BuiltInSymbols && |n| > 0 && IsAlpha(n[0])
    ensures var out := AssembledFrom(insts, UserSymbols(insts)).value;
      CodeCount(insts[..i]) < |out| && out[CodeCount(insts[..i])] == EncodeA(CodeCount(insts[..p]))
  {
    UserSymbolsKeys(insts);
    LabelAddress(insts, p);
    var _ := AssembledAt(insts, UserSymbols(insts), i);
  }

  /** Against the table of the label pass, a reference to a variable (a
      name neither built in nor declared as a label) prints 16 plus the
      position of the name among the variables of the program up to it, in
      order of first reference. */
  lemma VariableAddress(insts: seq<Instruction>, i: nat)
    requires AssembledFrom(insts, UserSymbols(insts)).Ok?
    requires i < |insts| && insts[i].AInstruction?
    requires var x := insts[i].value; |x| > 0 && IsAlpha(x[0]) && x !in BuiltInSymbols && Label(x) !in insts
    ensures var order := FirstOccurrences(Variables(UserSymbols(insts), SymbolRefs(insts[..i + 1])));
      var out := AssembledFrom(insts, UserSymbols(insts)).value;
      insts[i].value in order && CodeCount(insts[..i]) < |out|
      && forall k :: 0 <= k < |order| && order[k] == insts[i].value ==> out[CodeCount(insts[..i])] == EncodeA(16 + k)
  {
    var x := insts[i].value;
    var symbols := UserSymbols(insts);
    var before := SymbolRefs(insts[..i]);
    var names := SymbolRefs(insts[..i + 1]);
    var out := AssembledFrom(insts, symbols).value;
    assert VariablesKey in symbols && symbols[VariablesKey] == 0 && x !in symbols by {
      assert VariablesKey[0] == '_';
      UserSymbolsKeys(insts);
    }
    assert x != VariablesKey && forall j :: 0 <= j < |before| ==> before[j] != VariablesKey by {
      assert VariablesKey[0] == '_';
    }
    var table := AssembledAt(insts, symbols, i);
    assert CodeCount(insts[..i]) < |out| && out[CodeCount(insts[..i])] == EncodeA(Resolved(table, x).0) by {
      AssembleOneName(insts[i], table);
    }
    SymbolRefsSnoc(insts, i);
    VariableAddressIn(symbols, before, names, x, table, out, CodeCount(insts[..i]));
  }

  /** Extending a run of instructions by one extends its references by the
      new instruction's. */
  lemma SymbolRefsSnoc(insts: seq<Instruction>, i: nat)
    requires i < |insts|
    ensures SymbolRefs(insts[..i + 1]) == SymbolRefs(insts[..i]) + SymbolRef(insts[i])
  {
    assert insts[..i + 1] == insts[..i] + [insts[i]];
    SymbolRefsAppend(insts[..i], [insts[i]]);
    assert [insts[i]][1..] == [];
  }

  /** VariableAddress on its parts: the series of names up to the
      reference, the table it is resolved against and the output word. */
  lemma VariableAddressIn(symbols: SymbolMap, before: seq<string>, names: seq<string>, x: string,
                          table: SymbolMap, out: seq<string>, c: nat)
    requires VariablesKey in symbols && symbols[VariablesKey] == 0 && x !in BuiltInSymbols && x !in symbols
    requires forall j :: 0 <= j < |before| ==> before[j] != VariablesKey
    requires x != VariablesKey && names == before + [x] && table == ResolveEach(symbols, before).1
    requires c < |out| && out[c] == EncodeA(Resolved(table, x).0)
    ensures var order := FirstOccurrences(Variables(symbols, names));
      x in order && c < |out| && forall k :: 0 <= k < |order| && order[k] == x ==> out[c] == EncodeA(16 + k)
  {
    assert names[..|names| - 1] == before && names[|names| - 1] == x;
    VariablesInOrder(symbols, names);
    VariableAddressRead(symbols, names, x, table);
  }

  /** An A-instruction naming a symbol prints the address resolve_symbol
      gives it. */
  lemma AssembleOneName(inst: Instruction, symbols: SymbolMap)
    requires VariablesKey in symbols && inst.AInstruction? && |inst.value| > 0 && IsAlpha(inst.value[0])
    ensures AssembleOne(inst, symbols) == Ok((Some(EncodeA(Resolved(symbols, inst.value).0)), Resolved(symbols, inst.value).1))
  {
  }

  /** The address the last of a series of names gets, read off
      AllocatedInOrder. */
  lemma VariableAddressRead(symbols: SymbolMap, names: seq<string>, x: string, table: SymbolMap)
    requires VariablesKey in symbols && symbols[VariablesKey] == 0
    requires |names| > 0 && names[|names| - 1] == x && x !in BuiltInSymbols && x !in symbols
    requires table == ResolveEach(symbols, names[..|names| - 1]).1
    requires AllocatedInOrder(symbols, names, ResolveEach(symbols, names).0, ResolveEach(symbols, names).1)
    ensures var order := FirstOccurrences(Variables(symbols, names));
      x in order && forall k :: 0 <= k < |order| && order[k] == x ==> Resolved(table, x).0 == 16 + k
  {
    var addresses := ResolveEach(symbols, names).0;
    assert addresses[|names| - 1] == Resolved(table, x).0;
    assert x in Variables(symbols, names);
  }

  // ---------------------------------------------------------------------
  // assemble (without the file I/O)

  /** Parse, build the label table, encode. */
  function Assemble(lines: seq<string>): Result<seq<string>>
  {
    match ParseLines(lines)
    case Err(e) => Err(e)
    case Ok(insts) => AssembledFrom(insts, UserSymbols(insts))
  }

  method AssembleLines(lines: seq<string>) returns (r: Result<seq<string>>)
    ensures r == Assemble(lines)
  {
    var parsed := ParseFile(lines);
    match parsed {
      case Err(e) =>
        return Err(e);
      case Ok(instructions) =>
        UserSymbolsKeys(instructions);
        var userSymbols := BuildUserSymbols(instructions);
        r := AssembleToStrings(instructions, userSymbols);
    }
  }

  /** Assembling a sequence that starts with `inst` outputs the bits of
      `inst`, if any, then continues with the table `inst` left behind. */
  lemma AssembledCons(inst: Instruction, rest: seq<Instruction>, symbols: SymbolMap)
    requires VariablesKey in symbols && AssembleOne(inst, symbols).Ok?
    ensures var (bits, next) := AssembleOne(inst, symbols).value;
      AssembledFrom([inst] + rest, symbols) ==
        if bits.Some? then Prepend([bits.value], AssembledFrom(rest, next)) else AssembledFrom(rest, next)
  {
    assert ([inst] + rest)[0] == inst && ([inst] + rest)[1..] == rest;
  }

  /** `@2` then `D=A`. */
  lemma WorkedExample()
    ensures Assemble(["@2", "D=A"]) == Ok(["0000000000000010", "1110110000010000"])
  {
    var insts := ParseExample();
    AssembleExample(insts, "2", "D", "A");
  }

  lemma ParseExample() returns (insts: seq<Instruction>)
    ensures insts == [AInstruction("2"), CInstruction(Some("D"), "A", None)]
    ensures ParseLines(["@2", "D=A"]) == Ok(insts)
  {
    insts := [AInstruction("2"), CInstruction(Some("D"), "A", None)];
    ParsesBack(insts[0], "@2");
    ParsesBack(insts[1], "D=A");
    ParsedPair("@2", "D=A", insts[0], insts[1]);
  }

  /** Two instruction lines parse to the two instructions. */
  lemma ParsedPair(first: string, second: string, a: Instruction, b: Instruction)
    requires ParseLine(first) == Ok(Some(a)) && ParseLine(second) == Ok(Some(b))
    ensures ParseLines([first, second]) == Ok([a, b])
  {
    var lines := [first, second];
    assert lines[0] == first && lines[1..] == [second];
    CollectOne(second, b);
    assert Collect(lines, ParseLine) == Prepend([a], Collect([second], ParseLine));
    assert [a] + [b] == [a, b];
  }

  lemma CollectOne(line: string, inst: Instruction)
    requires ParseLine(line) == Ok(Some(inst))
    ensures Collect([line], ParseLine) == Ok([inst])
  {
    assert [line][0] == line && [line][1..] == [];
    assert Collect([], ParseLine) == Ok([]);
    assert [inst] + [] == [inst];
  }

  lemma ParsesBack(inst: Instruction, text: string)
    requires Unparse(inst) == text && NoSpace(text) && '/' !in text
    requires inst.CInstruction? ==> WellFormed(inst)
    ensures ParseLine(text) == Ok(Some(inst))
  {
    forall j: nat ensures !OccursAt(text, "//", j) {
      OccursAtSlashes(text, j);
    }
    ParseUnparse(inst);
  }

  lemma AssembleExample(insts: seq<Instruction>, value: string, dest: string, comp: string)
    requires value == "2" && dest == "D" && comp == "A"
    requires insts == [AInstruction(value), CInstruction(Some(dest), comp, None)]
    ensures AssembledFrom(insts, UserSymbols(insts)) == Ok(["0000000000000010", "1110110000010000"])
  {
    var symbols := UserSymbols(insts);
    ExampleA(value, symbols);
    ExampleC(dest, comp);
    AssembledPair(insts[0], insts[1], symbols, "0000000000000010", "1110110000010000");
  }

  /** Two instructions that each emit one word, with no new symbol. */
  lemma AssembledPair(first: Instruction, second: Instruction, symbols: SymbolMap, a: string, b: string)
    requires VariablesKey in symbols
    requires AssembleOne(first, symbols) == Ok((Some(a), symbols))
    requires AssembleOne(second, symbols) == Ok((Some(b), symbols))
    ensures AssembledFrom([first, second], symbols) == Ok([a, b])
  {
    AssembledCons(second, [], symbols);
    assert [second] + [] == [second];
    assert AssembledFrom([], symbols) == Ok([]);
    assert [b] + [] == [b];
    AssembledCons(first, [second], symbols);
    assert [first] + [second] == [first, second];
    assert [a] + [b] == [a, b];
  }

  lemma ExampleA(value: string, symbols: SymbolMap)
    requires value == "2" && VariablesKey in symbols
    ensures AssembleOne(AInstruction(value), symbols) == Ok((Some("0000000000000010"), symbols))
  {
    var n := ExampleNumber(value);
    ExampleBits(n);
    AssembleNumber(value, symbols, n, "0000000000000010");
  }

  lemma ExampleNumber(value: string) returns (n: int)
    requires value == "2"
    ensures Stoi(value) == Ok(n) && n == 2
    ensures |value| == 0 || !IsAlpha(value[0])
  {
    TwoChar(value);
    SingleDigit(value);
    n := DigitValue(value[0]);
  }

  lemma TwoChar(value: string)
    requires value == "2"
    ensures |value| == 1 && value[0] == '2' && IsDigit(value[0]) && !IsAlpha(value[0]) && DigitValue(value[0]) == 2
  {
  }

  /** A numeric A-instruction emits its value's bits and leaves the table. */
  lemma AssembleNumber(value: string, symbols: SymbolMap, n: int, bits: string)
    requires VariablesKey in symbols && (|value| == 0 || !IsAlpha(value[0]))
    requires Stoi(value) == Ok(n) && EncodeA(n) == bits
    ensures AssembleOne(AInstruction(value), symbols) == Ok((Some(bits), symbols))
  {
  }

  lemma ExampleBits(n: int)
    requires n == 2
    ensures EncodeA(n) == "0000000000000010"
  {
    var b: nat := n % 0x8000;
    TwoOnFifteenBits(b);
    var s := ToBinary(b, 15);
    EncodeAFifteen(n, b, s);
    LeadingZero(s);
  }

  lemma EncodeAFifteen(n: int, b: nat, s: string)
    requires n % 0x8000 == b && ToBinary(b, 15) == s
    ensures EncodeA(n) == "0" + s
  {
    EncodeABits(n);
  }

  lemma LeadingZero(s: string)
    requires s == "000000000000010"
    ensures "0" + s == "0000000000000010"
  {
  }

  lemma TwoOnFifteenBits(b: nat)
    requires b == 2
    ensures ToBinary(b, 15) == "000000000000010"
  {
    Pow2Values();
    ToBinaryConcat(0, 2, 13, 2);
    assert ToBinary(2, 2) == "10";
    ToBinaryZero(13);
    assert seq(13, _ => '0') == "0000000000000";
  }

  lemma ExampleC(dest: string, comp: string)
    requires dest == "D" && comp == "A"
    ensures EncodeC(Some(dest), comp, None) == Ok("1110110000010000")
  {
    assert CompTable[comp] == 48 && DestTable[dest] == 2;
    EncodeCLayout(Some(dest), comp, None);
    ExampleFields();
    assert DestBits(Some(dest)) == 2 && JumpBits(None) == 0;
    ExampleCConcat();
  }

  lemma ExampleCConcat()
    ensures "111" + "0110000" + "010" + "000" == "1110110000010000"
  {
  }

  lemma ExampleFields()
    ensures ToBinary(48, 7) == "0110000" && ToBinary(2, 3) == "010" && ToBinary(0, 3) == "000"
  {
    assert ToBinary(48, 7) == "0110000";
    assert ToBinary(2, 3) == "010";
  }
}
