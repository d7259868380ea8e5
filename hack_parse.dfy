/** The Hack assembly line parser (src/parse.cpp): one line of text becomes
    an A-instruction, a C-instruction, a label, nothing, or an error. */
module HackParse {
  import opened Results
  import opened Text

  datatype Jump = JGT | JEQ | JGE | JLT | JNE | JLE | JMP

  /** The enum's position, as the C++ enum numbers it (JGT = 0 ... JMP = 6). */
  function JumpIndex(j: Jump): nat
  {
    match j
    case JGT => 0 case JEQ => 1 case JGE => 2 case JLT => 3
    case JNE => 4 case JLE => 5 case JMP => 6
  }

  const JumpLookup: map<string, Jump> :=
    map["JGT" := JGT, "JEQ" := JEQ, "JGE" := JGE, "JLT" := JLT,
        "JNE" := JNE, "JLE" := JLE, "JMP" := JMP]

  /** The mnemonic of a jump, the inverse of the lookup table. */
  function JumpName(j: Jump): (name: string)
    ensures name in JumpLookup && JumpLookup[name] == j
  {
    match j
    case JGT => "JGT" case JEQ => "JEQ" case JGE => "JGE" case JLT => "JLT"
    case JNE => "JNE" case JLE => "JLE" case JMP => "JMP"
  }

  /** The lookup table holds exactly the seven mnemonics, none of which holds
      a `=`. */
  lemma JumpLookupNames(text: string)
    ensures text in JumpLookup ==> JumpName(JumpLookup[text]) == text && '=' !in text
  {
  }

  datatype Instruction =
    | AInstruction(value: string)
    | CInstruction(dest: Option<string>, comp: string, jump: Option<Jump>)
    | Label(name: string)

  /** The line after whitespace removal and after dropping everything from
      its first `//`. */
  function Clean(line: string): string
  {
    StripComment(RemoveWhitespace(line))
  }

  /** parseLine. */
  function ParseLine(line: string): Result<Option<Instruction>>
  {
    var s := Clean(line);
    if |s| == 0 then Ok(None)
    else if s[0] == '@' then Ok(Some(AInstruction(s[1..])))
    // substr(1, length - 2): for a one-character line the count wraps
    // around and substr takes the (empty) rest of the line
    else if s[0] == '(' then Ok(Some(Label(if |s| >= 2 then s[1..|s| - 1] else "")))
    else ParseC(s)
  }

  /** The C-instruction branch of parseLine, on the cleaned line. */
  function ParseC(s: string): Result<Option<Instruction>>
  {
    var equalPos := Find(s, "=");
    var dest := if equalPos.Some? then Some(s[..equalPos.value]) else None;
    var nextStart := if equalPos.Some? then equalPos.value + 1 else 0;
    var semicolonPos := Find(s, ";");
    // substr(nextStart, semicolonPos - nextStart): without a `;`, or with
    // one before nextStart, the unsigned count wraps and substr takes the rest
    var comp :=
      if semicolonPos.Some? && semicolonPos.value >= nextStart
      then s[nextStart..semicolonPos.value] else s[nextStart..];
    if semicolonPos.None? then Ok(Some(CInstruction(dest, comp, None)))
    else
      var jumpText := s[semicolonPos.value + 1..];
      if jumpText in JumpLookup then Ok(Some(CInstruction(dest, comp, Some(JumpLookup[jumpText]))))
      else Err(InvalidJump(jumpText))
  }

  /** The text of an instruction in the assembly grammar. */
  function Unparse(inst: Instruction): string
  {
    match inst
    case AInstruction(v) => "@" + v
    case Label(n) => "(" + n + ")"
    case CInstruction(d, c, j) =>
      (if d.Some? then d.value + "=" else "") + c + (if j.Some? then ";" + JumpName(j.value) else "")
  }

  /** A string the cleaning step leaves alone. */
  ghost predicate Plain(s: string)
  {
    NoSpace(s) && forall j :: 0 <= j ==> !OccursAt(s, "//", j)
  }

  /** The instructions whose text parses back to them. */
  ghost predicate WellFormed(inst: Instruction)
  {
    var s := Unparse(inst);
    Plain(s) &&
    match inst
    case AInstruction(_) => true
    case Label(_) => true
    case CInstruction(d, c, j) =>
      s != "" && s[0] != '@' && s[0] != '(' &&
      (d.Some? ==> '=' !in d.value && ';' !in d.value) &&
      ';' !in c && (d.None? ==> '=' !in c)
  }

  // ---------------------------------------------------------------------
  // Whitespace and comments

  lemma CleanPlain(s: string)
    requires Plain(s)
    ensures Clean(s) == s
  {
    RemoveWhitespaceNoSpace(s);
    StripCommentNone(s);
  }

  /** The result depends only on the line with all whitespace removed. */
  lemma ParseLineIgnoresWhitespace(line: string)
    ensures ParseLine(line) == ParseLine(RemoveWhitespace(line))
  {
    RemoveWhitespaceClean(line);
    RemoveWhitespaceNoSpace(RemoveWhitespace(line));
  }

  /** A whitespace character anywhere in the line changes nothing. */
  lemma ParseLineIgnoresSpaceChar(a: string, c: char, b: string)
    requires IsSpace(c)
    ensures ParseLine(a + [c] + b) == ParseLine(a + b)
  {
    RemoveWhitespaceAppend(a + [c], b);
    RemoveWhitespaceAppend(a, [c]);
    RemoveWhitespaceAppend(a, b);
    assert [c][1..] == [];
    calc {
      RemoveWhitespace(a + [c] + b);
      RemoveWhitespace(a + [c]) + RemoveWhitespace(b);
      (RemoveWhitespace(a) + RemoveWhitespace([c])) + RemoveWhitespace(b);
      { assert RemoveWhitespace([c]) == []; assert RemoveWhitespace(a) + [] == RemoveWhitespace(a); }
      RemoveWhitespace(a) + RemoveWhitespace(b);
      RemoveWhitespace(a + b);
    }
  }

  /** Everything from the first `//` is discarded: appending a comment to a
      line whose code part holds no `//` (and does not end in `/`) changes
      nothing. */
  lemma ParseLineIgnoresComment(code: string, comment: string)
    requires Find(RemoveWhitespace(code) + "/", "//").None?
    ensures ParseLine(code + "//" + comment) == ParseLine(code)
  {
    var c := RemoveWhitespace(code);
    RemoveWhitespaceAppend(code + "//", comment);
    RemoveWhitespaceAppend(code, "//");
    assert RemoveWhitespace("//") == "//";
    var s := c + "//" + RemoveWhitespace(comment);
    assert RemoveWhitespace(code + "//" + comment) == s;
    FirstCommentAfterCode(c, RemoveWhitespace(comment));
    NoCommentInCode(c);
  }

  lemma FirstCommentAfterCode(c: string, t: string)
    requires Find(c + "/", "//").None?
    ensures StripComment(c + "//" + t) == c
  {
    var s := c + "//" + t;
    var c' := c + "/";
    FindFirst(c', "//");
    OccursAtSlashes(s, |c|);
    forall j | 0 <= j < |c| ensures !OccursAt(s, "//", j) {
      OccursAtSlashes(s, j);
      OccursAtSlashes(c', j);
      assert j + 1 < |c'| && s[j] == c'[j] && s[j + 1] == c'[j + 1];
    }
    FindIs(s, "//", |c|);
  }

  lemma NoCommentInCode(c: string)
    requires Find(c + "/", "//").None?
    ensures StripComment(c) == c
  {
    FindFirst(c + "/", "//");
    forall j | 0 <= j ensures !OccursAt(c, "//", j) {
      OccursAtSlashes(c, j);
      OccursAtSlashes(c + "/", j);
    }
    StripCommentNone(c);
  }

  /** A line yields no instruction exactly when nothing is left of it after
      whitespace and comment removal. */
  lemma ParseLineEmpty(line: string)
    ensures ParseLine(line) == Ok(None) <==> Clean(line) == ""
  {
  }

  // ---------------------------------------------------------------------
  // Classification

  /** A line starting with `@` is an A-instruction holding the rest of the
      line; one starting with `(` is a label named by the line without its
      first and last characters. */
  lemma ParseLineAOrLabel(line: string)
    requires Clean(line) != ""
    ensures var s := Clean(line);
      (s[0] == '@' ==> ParseLine(line) == Ok(Some(AInstruction(s[1..])))) &&
      (s[0] == '(' && |s| >= 2 ==> ParseLine(line) == Ok(Some(Label(s[1..|s| - 1])))) &&
      (s[0] == '(' && |s| == 1 ==> ParseLine(line) == Ok(Some(Label(""))))
  {
  }

  /** A `;` that comes before the first `=` leaves a jump text holding that
      `=`, which no mnemonic does. */
  lemma SemicolonBeforeEqual(s: string, e: nat, k: nat)
    requires e < |s| && s[e] == '=' && k < e && s[k] == ';'
    ensures s[k + 1..] !in JumpLookup
  {
    assert s[k + 1..][e - k - 1] == '=';
    JumpLookupNames(s[k + 1..]);
  }

  /** A C-instruction line is its instruction's text: `dest` is present
      exactly when the line holds `=` and is then the text before the first
      `=`; `comp` runs from there to the first `;`; `jump` is present exactly
      when the line holds `;`. */
  lemma ParseLineC(line: string)
    requires ParseLine(line).Ok? && ParseLine(line).value.Some?
    requires ParseLine(line).value.value.CInstruction?
    ensures var s := Clean(line);
      var inst := ParseLine(line).value.value;
      s == Unparse(inst) &&
      (inst.dest.Some? <==> '=' in s) &&
      (inst.dest.Some? ==> '=' !in inst.dest.value && ';' !in inst.dest.value) &&
      ';' !in inst.comp &&
      (inst.jump.Some? <==> ';' in s)
  {
    ParseCShape(Clean(line));
  }

  /** The shape facts of a parsed C-instruction. */
  ghost predicate CShape(s: string, inst: Instruction)
  {
    inst.CInstruction? &&
    s == Unparse(inst) &&
    (inst.dest.Some? <==> '=' in s) &&
    (inst.dest.Some? ==> '=' !in inst.dest.value && ';' !in inst.dest.value) &&
    ';' !in inst.comp &&
    (inst.jump.Some? <==> ';' in s)
  }

  lemma ParseCShape(s: string)
    requires ParseC(s).Ok?
    ensures ParseC(s).value.Some? && CShape(s, ParseC(s).value.value)
  {
    FindChar(s, '=');
    FindChar(s, ';');
    var equalPos := Find(s, "=");
    var semicolonPos := Find(s, ";");
    if semicolonPos.Some? {
      if equalPos.Some? {
        var e, k := equalPos.value, semicolonPos.value;
        if k < e {
          SemicolonBeforeEqual(s, e, k);
        }
        ShapeBoth(s, e, k);
      } else {
        ShapeJumpOnly(s, semicolonPos.value);
      }
    } else {
      ShapeNoJump(s);
    }
  }

  lemma ShapeBoth(s: string, e: nat, k: nat)
    requires Find(s, "=") == Some(e) && Find(s, ";") == Some(k) && e < k
    requires ParseC(s).Ok?
    ensures ParseC(s).value.Some? && CShape(s, ParseC(s).value.value)
  {
    ParseCBoth(s, e, k);
    var jump := JumpLookup[s[k + 1..]];
    JumpLookupNames(s[k + 1..]);
    CShapeBoth(s, e, k, jump);
  }

  lemma ParseCBoth(s: string, e: nat, k: nat)
    requires Find(s, "=") == Some(e) && Find(s, ";") == Some(k) && e < k
    requires ParseC(s).Ok?
    ensures s[k + 1..] in JumpLookup
    ensures ParseC(s) == Ok(Some(CInstruction(Some(s[..e]), s[e + 1..k], Some(JumpLookup[s[k + 1..]]))))
  {
  }

  lemma CShapeBoth(s: string, e: nat, k: nat, jump: Jump)
    requires Find(s, "=") == Some(e) && Find(s, ";") == Some(k) && e < k
    requires JumpName(jump) == s[k + 1..]
    ensures CShape(s, CInstruction(Some(s[..e]), s[e + 1..k], Some(jump)))
  {
    FindChar(s, '=');
    FindChar(s, ';');
    var d, c := s[..e], s[e + 1..k];
    assert Unparse(CInstruction(Some(d), c, Some(jump))) == d + "=" + c + ";" + s[k + 1..];
    SplitBoth(s, e, k);
    assert d == s[..k][..e];
    assert c == s[..k][e + 1..];
  }

  lemma SplitBoth(s: string, e: nat, k: nat)
    requires e < k < |s|
    ensures s == s[..e] + [s[e]] + s[e + 1..k] + [s[k]] + s[k + 1..]
  {
  }

  lemma ShapeJumpOnly(s: string, k: nat)
    requires Find(s, "=").None? && Find(s, ";") == Some(k)
    requires ParseC(s).Ok?
    ensures ParseC(s).value.Some? && CShape(s, ParseC(s).value.value)
  {
    FindChar(s, '=');
    FindChar(s, ';');
    JumpLookupNames(s[k + 1..]);
    var inst := ParseC(s).value.value;
    assert inst == CInstruction(None, s[..k], Some(JumpLookup[s[k + 1..]]));
    assert s == s[..k] + ";" + s[k + 1..];
  }

  lemma ShapeNoJump(s: string)
    requires Find(s, ";").None?
    ensures ParseC(s).value.Some? && CShape(s, ParseC(s).value.value)
  {
    FindChar(s, '=');
    FindChar(s, ';');
    match Find(s, "=") {
      case None =>
        assert ParseC(s).value.value == CInstruction(None, s, None);
      case Some(e) =>
        assert ParseC(s).value.value == CInstruction(Some(s[..e]), s[e + 1..], None);
        assert s == s[..e] + "=" + s[e + 1..];
    }
  }

  /** A C-instruction line fails exactly when the text after its first `;`
      is not one of the seven jump mnemonics. */
  lemma ParseLineJumpError(line: string, pre: string, post: string)
    requires Clean(line) == pre + ";" + post && ';' !in pre
    requires pre == [] || (pre[0] != '@' && pre[0] != '(')
    ensures ParseLine(line).Err? <==> post !in JumpLookup
    ensures ParseLine(line).Err? ==> ParseLine(line).error == InvalidJump(post)
  {
    var s := Clean(line);
    assert s[|pre|] == ';';
    assert s[..|pre|] == pre;
    FirstIndex(s, ';', |pre|);
    assert s[|pre| + 1..] == post;
  }

  /** A line without `;` never fails. */
  lemma ParseLineNoJumpOk(line: string)
    requires ';' !in Clean(line)
    ensures ParseLine(line).Ok?
  {
    FindChar(Clean(line), ';');
  }

  lemma FirstIndex(s: string, c: char, k: nat)
    requires k < |s| && s[k] == c && c !in s[..k]
    ensures Find(s, [c]) == Some(k)
  {
    FindChar(s, c);
  }

  // ---------------------------------------------------------------------
  // Round trip

  lemma PlainPrefix(s: string, t: string)
    requires Plain(s + t)
    ensures Plain(s)
  {
    assert forall i :: 0 <= i < |s| ==> s[i] == (s + t)[i];
    forall j | 0 <= j ensures !OccursAt(s, "//", j) {
      if OccursAt(s, "//", j) {
        assert (s + t)[j..j + 2] == s[j..j + 2];
        assert OccursAt(s + t, "//", j);
      }
    }
  }

  /** Every well-formed instruction parses back from its own text. */
  lemma ParseUnparse(inst: Instruction)
    requires WellFormed(inst)
    ensures ParseLine(Unparse(inst)) == Ok(Some(inst))
  {
    var s := Unparse(inst);
    CleanPlain(s);
    match inst {
      case AInstruction(v) =>
        assert s[1..] == v;
      case Label(n) =>
        assert s[1..|s| - 1] == n;
      case CInstruction(d, c, j) =>
        UnparseC(d, c, j);
    }
  }

  lemma UnparseC(d: Option<string>, c: string, j: Option<Jump>)
    requires var s := Unparse(CInstruction(d, c, j));
      (d.Some? ==> '=' !in d.value && ';' !in d.value) && ';' !in c && (d.None? ==> '=' !in c)
    ensures ParseC(Unparse(CInstruction(d, c, j))) == Ok(Some(CInstruction(d, c, j)))
  {
    var s := Unparse(CInstruction(d, c, j));
    var prefix := if d.Some? then d.value + "=" else "";
    var suffix := if j.Some? then ";" + JumpName(j.value) else "";
    assert s == prefix + c + suffix;
    UnparseEqual(d, c, suffix);
    UnparseSemicolon(prefix, d, c, j);
    UnparseSlices(prefix, d, c, suffix, j);
    ParseCOf(s, d, c, j);
  }

  /** Where the fields of an instruction's text lie. */
  lemma UnparseSlices(prefix: string, d: Option<string>, c: string, suffix: string, j: Option<Jump>)
    requires prefix == if d.Some? then d.value + "=" else ""
    requires suffix == if j.Some? then ";" + JumpName(j.value) else ""
    ensures var s, start := prefix + c + suffix, |prefix|;
      start + |c| <= |s| && s[start..start + |c|] == c
      && (d.Some? ==> start == |d.value| + 1 && s[..|d.value|] == d.value)
      && (d.None? ==> start == 0)
      && (j.Some? ==> s[start + |c| + 1..] == JumpName(j.value))
      && (j.None? ==> start + |c| == |s|)
  {
    var s := prefix + c + suffix;
    assert s[|prefix|..|prefix| + |c|] == c;
    if d.Some? {
      assert s[..|d.value|] == d.value;
    }
    if j.Some? {
      assert s[|prefix| + |c| + 1..] == JumpName(j.value);
    }
  }

  /** ParseC reads back the fields of a text whose `=` and `;` are where
      the fields put them. */
  lemma ParseCOf(s: string, d: Option<string>, c: string, j: Option<Jump>)
    requires Find(s, "=") == if d.Some? then Some(|d.value|) else None
    requires d.Some? ==> |d.value| <= |s| && s[..|d.value|] == d.value
    requires var start := if d.Some? then |d.value| + 1 else 0;
      start + |c| <= |s| && s[start..start + |c|] == c
      && Find(s, ";") == (if j.Some? then Some(start + |c|) else None)
      && (j.Some? ==> s[start + |c| + 1..] == JumpName(j.value))
      && (j.None? ==> start + |c| == |s|)
    ensures ParseC(s) == Ok(Some(CInstruction(d, c, j)))
  {
    var start := if d.Some? then |d.value| + 1 else 0;
    if j.Some? {
      var name := JumpName(j.value);
      assert name in JumpLookup && JumpLookup[name] == j.value;
    } else {
      assert s[start..] == s[start..start + |c|];
    }
  }

  lemma UnparseEqual(d: Option<string>, c: string, suffix: string)
    requires d.Some? ==> '=' !in d.value
    requires d.None? ==> '=' !in c
    requires '=' !in suffix
    ensures var s := (if d.Some? then d.value + "=" else "") + c + suffix;
      Find(s, "=") == if d.Some? then Some(|d.value|) else None
  {
    var s := (if d.Some? then d.value + "=" else "") + c + suffix;
    FindChar(s, '=');
    if d.Some? {
      assert s[|d.value|] == '=';
      assert s[..|d.value|] == d.value;
      FirstIndex(s, '=', |d.value|);
    } else {
      assert s == c + suffix;
      assert '=' !in s;
    }
  }

  lemma UnparseSemicolon(prefix: string, d: Option<string>, c: string, j: Option<Jump>)
    requires prefix == if d.Some? then d.value + "=" else ""
    requires d.Some? ==> ';' !in d.value
    requires ';' !in c
    ensures var s := prefix + c + (if j.Some? then ";" + JumpName(j.value) else "");
      Find(s, ";") == if j.Some? then Some(|prefix| + |c|) else None
  {
    var s := prefix + c + (if j.Some? then ";" + JumpName(j.value) else "");
    FindChar(s, ';');
    assert ';' !in prefix;
    if j.Some? {
      var k := |prefix| + |c|;
      assert s[k] == ';';
      assert s[..k] == prefix + c;
      FirstIndex(s, ';', k);
    } else {
      assert s == prefix + c;
    }
  }

  // ---------------------------------------------------------------------
  // parseFile, without the file: the lines are given

  function ParseLines(lines: seq<string>): Result<seq<Instruction>>
  {
    Collect(lines, ParseLine)
  }

  /** The loop of parseFile: parse each line, keep those that produced an
      instruction, stop at the first error. */
  method ParseFile(lines: seq<string>) returns (r: Result<seq<Instruction>>)
    ensures r == ParseLines(lines)
  {
    var parsed: seq<Instruction> := [];
    var i := 0;
    assert lines[0..] == lines;
    match ParseLines(lines) {
      case Ok(all) => assert [] + all == all;
      case Err(_) =>
    }
    while i < |lines|
      invariant 0 <= i <= |lines|
      invariant ParseLines(lines) == Prepend(parsed, Collect(lines[i..], ParseLine))
      decreases |lines| - i
    {
      assert lines[i..][1..] == lines[i + 1..];
      var line := ParseLine(lines[i]);
      match line {
        case Err(e) =>
          return Err(e);
        case Ok(None) =>
        case Ok(Some(inst)) =>
          match Collect(lines[i + 1..], ParseLine) {
            case Ok(rest) => assert parsed + ([inst] + rest) == (parsed + [inst]) + rest;
            case Err(_) =>
          }
          parsed := parsed + [inst];
      }
      i := i + 1;
    }
    assert lines[i..] == [];
    assert parsed + [] == parsed;
    r := Ok(parsed);
  }
}
