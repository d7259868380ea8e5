/** The character classes and string routines of the C++ and Boost
    libraries that the parsers and the code generator call: isspace,
    isalpha, std::string::find, erasing a trailing comment, boost::trim,
    boost::split on one character, decimal parsing as stoi and stoul do it
    (leading whitespace, an optional sign, the longest digit run, anything
    after it ignored) and std::to_string for non-negative numbers. */
module Text {
  import opened Results

  /** `isspace` in the "C" locale: space, \t, \n, \v, \f and \r. */
  predicate IsSpace(c: char) { c == ' ' || '\t' <= c <= '\r' }

  /** `isalpha` in the "C" locale. */
  predicate IsAlpha(c: char) { 'A' <= c <= 'Z' || 'a' <= c <= 'z' }

  predicate IsDigit(c: char) { '0' <= c <= '9' }

  predicate NoSpace(s: string) { forall i :: 0 <= i < |s| ==> !IsSpace(s[i]) }

  // ---------------------------------------------------------------------
  // erase(remove_if(begin, end, isspace), end)

  /** The string with every whitespace character removed, the rest kept in order. */
  function RemoveWhitespace(s: string): (r: string)
    ensures |r| <= |s|
  {
    if s == [] then []
    else if IsSpace(s[0]) then RemoveWhitespace(s[1..])
    else [s[0]] + RemoveWhitespace(s[1..])
  }

  /** No whitespace is left. */
  lemma {:induction false} RemoveWhitespaceClean(s: string)
    ensures NoSpace(RemoveWhitespace(s))
  {
    if s != [] {
      RemoveWhitespaceClean(s[1..]);
    }
  }

  lemma {:induction false} RemoveWhitespaceAppend(a: string, b: string)
    ensures RemoveWhitespace(a + b) == RemoveWhitespace(a) + RemoveWhitespace(b)
  {
    if a == [] {
      assert a + b == b;
    } else {
      assert (a + b)[0] == a[0];
      assert (a + b)[1..] == a[1..] + b;
      RemoveWhitespaceAppend(a[1..], b);
    }
  }

  /** A string without whitespace is left as it is, so removal is idempotent. */
  lemma {:induction false} RemoveWhitespaceNoSpace(s: string)
    requires NoSpace(s)
    ensures RemoveWhitespace(s) == s
  {
    if s != [] {
      RemoveWhitespaceNoSpace(s[1..]);
    }
  }

  // ---------------------------------------------------------------------
  // std::string::find

  /** `pat` occurs in `s` starting at index `i`. */
  predicate OccursAt(s: string, pat: string, i: nat)
  {
    i + |pat| <= |s| && s[i..i + |pat|] == pat
  }

  /** The first index at or after `from` where `pat` occurs. */
  function FindFrom(s: string, pat: string, from: nat): (r: Option<nat>)
    requires from <= |s|
    ensures r.Some? ==> from <= r.value && r.value + |pat| <= |s|
    decreases |s| - from
  {
    if from + |pat| > |s| then None
    else if s[from..from + |pat|] == pat then Some(from)
    else FindFrom(s, pat, from + 1)
  }

  /** FindFrom gives the first occurrence at or after `from`, and `None`
      when there is none. */
  lemma {:induction false} FindFromFirst(s: string, pat: string, from: nat)
    requires from <= |s|
    ensures var r := FindFrom(s, pat, from);
      (r.Some? ==> OccursAt(s, pat, r.value)) &&
      (r.Some? ==> forall j :: from <= j < r.value ==> !OccursAt(s, pat, j)) &&
      (r.None? ==> forall j :: from <= j ==> !OccursAt(s, pat, j))
    decreases |s| - from
  {
    if from + |pat| <= |s| && s[from..from + |pat|] != pat {
      FindFromFirst(s, pat, from + 1);
    }
  }

  /** The first index where `pat` occurs (`std::string::npos` is `None`). */
  function Find(s: string, pat: string): (r: Option<nat>)
    ensures r.Some? ==> r.value + |pat| <= |s|
  {
    FindFrom(s, pat, 0)
  }

  /** Find gives the first occurrence, and `None` when there is none. */
  lemma FindFirst(s: string, pat: string)
    ensures var r := Find(s, pat);
      (r.Some? ==> OccursAt(s, pat, r.value)) &&
      (r.Some? ==> forall j :: 0 <= j < r.value ==> !OccursAt(s, pat, j)) &&
      (r.None? ==> forall j :: 0 <= j ==> !OccursAt(s, pat, j))
  {
    FindFromFirst(s, pat, 0);
  }

  /** An occurrence that no earlier one precedes is what `Find` returns. */
  lemma FindIs(s: string, pat: string, k: nat)
    requires OccursAt(s, pat, k)
    requires forall j :: 0 <= j < k ==> !OccursAt(s, pat, j)
    ensures Find(s, pat) == Some(k)
  {
    FindFirst(s, pat);
  }

  /** `//` occurs at `j` when characters `j` and `j + 1` are both slashes. */
  lemma OccursAtSlashes(s: string, j: nat)
    ensures OccursAt(s, "//", j) <==> j + 2 <= |s| && s[j] == '/' && s[j + 1] == '/'
  {
    if j + 2 <= |s| && s[j] == '/' && s[j + 1] == '/' {
      assert s[j..j + 2] == "//";
    }
  }

  /** For a one-character pattern, occurring means holding that character. */
  lemma OccursAtChar(s: string, c: char, i: nat)
    ensures OccursAt(s, [c], i) <==> i < |s| && s[i] == c
  {
    if i < |s| && s[i] == c {
      assert s[i..i + 1] == [c];
    }
  }

  /** Finding one character gives its first index, and `None` exactly when
      the character is absent. */
  lemma FindChar(s: string, c: char)
    ensures Find(s, [c]).None? <==> c !in s
    ensures Find(s, [c]).Some? ==>
      var k := Find(s, [c]).value; k < |s| && s[k] == c && c !in s[..k]
  {
    FindFirst(s, [c]);
    var r := Find(s, [c]);
    if r.Some? {
      OccursAtChar(s, c, r.value);
      forall j | 0 <= j < r.value ensures s[j] != c {
        OccursAtChar(s, c, j);
      }
    } else if c in s {
      var j :| 0 <= j < |s| && s[j] == c;
      OccursAtChar(s, c, j);
    }
  }

  // ---------------------------------------------------------------------
  // line.erase(line.find("//"))

  /** Everything before the first `//`; the whole string when there is none. */
  function StripComment(s: string): (r: string)
    ensures |r| <= |s| && r == s[..|r|]
  {
    var k := Find(s, "//");
    if k.Some? then s[..k.value] else s
  }

  /** What is kept holds no `//`, and what is cut starts with one. */
  lemma StripCommentFirst(s: string)
    ensures var r := StripComment(s);
      (forall j :: 0 <= j ==> !OccursAt(r, "//", j)) &&
      (|r| < |s| ==> OccursAt(s, "//", |r|))
  {
    FindFirst(s, "//");
    var r := StripComment(s);
    forall j | 0 <= j && OccursAt(r, "//", j) ensures OccursAt(s, "//", j) {
      assert s[j..j + 2] == r[j..j + 2];
    }
  }

  /** A string without `//` is kept whole. */
  lemma StripCommentNone(s: string)
    requires forall j :: 0 <= j ==> !OccursAt(s, "//", j)
    ensures StripComment(s) == s
  {
    FindFirst(s, "//");
  }

  // ---------------------------------------------------------------------
  // boost::trim

  /** The string without its leading whitespace. */
  function TrimStart(s: string): (r: string)
    ensures |r| <= |s| && r == s[|s| - |r|..]
    ensures forall i :: 0 <= i < |s| - |r| ==> IsSpace(s[i])
    ensures r == [] || !IsSpace(r[0])
  {
    if s == [] || !IsSpace(s[0]) then s else TrimStart(s[1..])
  }

  /** The string without its trailing whitespace. */
  function TrimEnd(s: string): (r: string)
    ensures |r| <= |s| && r == s[..|r|]
    ensures forall i :: |r| <= i < |s| ==> IsSpace(s[i])
    ensures r == [] || !IsSpace(r[|r| - 1])
  {
    if s == [] || !IsSpace(s[|s| - 1]) then s else TrimEnd(s[..|s| - 1])
  }

  /** The string without whitespace at either end. */
  function Trim(s: string): (r: string)
    ensures r == [] || (!IsSpace(r[0]) && !IsSpace(r[|r| - 1]))
  {
    TrimEnd(TrimStart(s))
  }

  /** Trimming leaves the part between the outer whitespace runs: `s` is
      `r` with whitespace around it. */
  lemma TrimShape(s: string) returns (lead: nat)
    ensures lead + |Trim(s)| <= |s| && s[lead..lead + |Trim(s)|] == Trim(s)
    ensures forall i :: 0 <= i < lead ==> IsSpace(s[i])
    ensures forall i :: lead + |Trim(s)| <= i < |s| ==> IsSpace(s[i])
  {
    var t := TrimStart(s);
    var r := TrimEnd(t);
    lead := |s| - |t|;
    InnerSlice(s, t, r, lead);
    assert Trim(s) == r;
  }

  /** A prefix `r` of the suffix `t` of `s` that starts at `lead`, with
      only whitespace after `r` in `t`, sits in `s` the same way. */
  lemma InnerSlice(s: string, t: string, r: string, lead: nat)
    requires lead <= |s| && t == s[lead..] && |r| <= |t| && r == t[..|r|]
    requires forall i :: |r| <= i < |t| ==> IsSpace(t[i])
    ensures lead + |r| <= |s| && s[lead..lead + |r|] == r
    ensures forall i :: lead + |r| <= i < |s| ==> IsSpace(s[i])
  {
    forall i | lead + |r| <= i < |s| ensures IsSpace(s[i]) {
      assert s[i] == t[i - lead];
    }
  }

  /** A string without whitespace at its ends is its own trim. */
  lemma TrimPlain(s: string)
    requires s != [] && !IsSpace(s[0]) && !IsSpace(s[|s| - 1])
    ensures Trim(s) == s
  {
  }

  /** Trimming twice trims no more than once. */
  lemma TrimTwice(s: string)
    ensures Trim(Trim(s)) == Trim(s)
  {
    var t := Trim(s);
    if t != [] {
      TrimPlain(t);
    }
  }

  /** Trimming a string without `//` leaves a string without `//`. */
  lemma TrimNoComment(s: string)
    requires forall j :: 0 <= j ==> !OccursAt(s, "//", j)
    ensures forall j :: 0 <= j ==> !OccursAt(Trim(s), "//", j)
  {
    var lead := TrimShape(s);
    var t := Trim(s);
    forall j | 0 <= j ensures !OccursAt(t, "//", j) {
      OccursInSlice(s, t, "//", lead, j);
    }
  }

  /** An occurrence in a slice is an occurrence in the whole string. */
  lemma OccursInSlice(s: string, t: string, pat: string, lead: nat, j: nat)
    requires lead + |t| <= |s| && s[lead..lead + |t|] == t
    ensures OccursAt(t, pat, j) ==> OccursAt(s, pat, lead + j)
  {
    if OccursAt(t, pat, j) {
      forall k | 0 <= k < |pat|
        ensures s[lead + j + k] == pat[k]
      {
        assert s[lead + j + k] == s[lead..lead + |t|][j + k];
        assert pat[k] == t[j..j + |pat|][k];
      }
      assert s[lead + j..lead + j + |pat|] == pat;
    }
  }

  /** Removing the comment twice removes no more than once. */
  lemma StripCommentTwice(s: string)
    ensures StripComment(StripComment(s)) == StripComment(s)
  {
    StripCommentFirst(s);
    StripCommentNone(StripComment(s));
  }

  // ---------------------------------------------------------------------
  // boost::split(words, line, c == sep), token compression off

  /** The pieces between occurrences of `sep`: n separators give n + 1
      pieces, so two adjacent separators give an empty piece. */
  function Split(s: string, sep: char): (r: seq<string>)
    ensures |r| >= 1
    ensures forall k :: 0 <= k < |r| ==> sep !in r[k]
    decreases |s|
  {
    FindChar(s, sep);
    match Find(s, [sep])
    case None => [s]
    case Some(k) => [s[..k]] + Split(s[k + 1..], sep)
  }

  /** The pieces glued back together with `sep` between them. */
  function Join(words: seq<string>, sep: char): string
    requires |words| >= 1
  {
    if |words| == 1 then words[0] else words[0] + [sep] + Join(words[1..], sep)
  }

  /** Splitting loses nothing: joining the pieces gives the string back. */
  lemma {:induction false} JoinSplit(s: string, sep: char)
    ensures Join(Split(s, sep), sep) == s
    decreases |s|
  {
    match Find(s, [sep])
    case None =>
    case Some(k) =>
      SplitStep(s, sep);
      var rest := Split(s[k + 1..], sep);
      JoinSplit(s[k + 1..], sep);
      assert ([s[..k]] + rest)[1..] == rest;
  }

  /** At the first separator, the string is the first piece, the separator
      and the rest, and the pieces are the first piece and those of the
      rest. */
  lemma SplitStep(s: string, sep: char)
    requires Find(s, [sep]).Some?
    ensures var k := Find(s, [sep]).value;
      k < |s| && s == s[..k] + [sep] + s[k + 1..] && Split(s, sep) == [s[..k]] + Split(s[k + 1..], sep)
  {
    FindChar(s, sep);
    var k := Find(s, [sep]).value;
    assert s == s[..k] + [sep] + s[k + 1..];
  }

  /** The first piece is everything before the first separator. */
  lemma SplitFirst(s: string, sep: char)
    ensures sep !in s ==> Split(s, sep) == [s]
    ensures sep in s ==> |Split(s, sep)| >= 2 && s == Split(s, sep)[0] + [sep] + s[|Split(s, sep)[0]| + 1..]
  {
    FindChar(s, sep);
    match Find(s, [sep])
    case None =>
    case Some(k) =>
      assert s == s[..k] + [sep] + s[k + 1..];
  }

  /** A string without the separator is one piece. */
  lemma SplitNone(s: string, sep: char)
    requires sep !in s
    ensures Split(s, sep) == [s]
  {
    SplitFirst(s, sep);
  }

  /** A piece without the separator, then the separator, then the rest:
      the piece comes first, then the pieces of the rest. */
  lemma SplitCons(a: string, sep: char, b: string)
    requires sep !in a
    ensures Split(a + [sep] + b, sep) == [a] + Split(b, sep)
  {
    var s := a + [sep] + b;
    FindChar(s, sep);
    var k := Find(s, [sep]).value;
    assert s[|a|] == sep;
    assert s[..|a|] == a && s[|a| + 1..] == b;
  }

  // ---------------------------------------------------------------------
  // stoi / stoul (base 10) and std::to_string

  predicate AllDigits(s: string) { forall i :: 0 <= i < |s| ==> IsDigit(s[i]) }

  function DigitValue(c: char): nat requires IsDigit(c) { (c as int) - ('0' as int) }

  function DigitChar(d: nat): (c: char)
    requires d < 10
    ensures IsDigit(c) && DigitValue(c) == d
  {
    (('0' as int) + d) as char
  }

  /** The value of a digit string read in base 10 (empty reads as 0). */
  function DigitsValue(s: string): nat
    requires AllDigits(s)
  {
    if s == [] then 0 else 10 * DigitsValue(s[..|s| - 1]) + DigitValue(s[|s| - 1])
  }

  /** The longest run of decimal digits at the start of `s`. */
  function DigitPrefix(s: string): (r: string)
    ensures |r| <= |s| && r == s[..|r|] && AllDigits(r)
    ensures |r| < |s| ==> !IsDigit(s[|r|])
  {
    if s == [] || !IsDigit(s[0]) then [] else [s[0]] + DigitPrefix(s[1..])
  }

  /** What `strtol` and `strtoul` read in base 10: leading whitespace is
      skipped, then an optional sign, then the longest run of digits, and
      whatever follows the digits is ignored; `None` when no digit is found. */
  function ScanInteger(s: string): Option<int>
  {
    var t := TrimStart(s);
    var signed := |t| > 0 && (t[0] == '+' || t[0] == '-');
    var digits := DigitPrefix(if signed then t[1..] else t);
    var magnitude: int := DigitsValue(digits);
    if digits == [] then None
    else if signed && t[0] == '-' then Some(-magnitude)
    else Some(magnitude)
  }

  const IntMin: int := -0x8000_0000
  const IntMax: int := 0x7FFF_FFFF
  /** 2^64: one more than the largest 64-bit `unsigned long`. */
  const ULongLimit: int := 0x1_0000_0000_0000_0000

  /** `std::stoi`: no digits is `invalid_argument`, a value outside the
      32-bit `int` range is `out_of_range`. */
  function Stoi(s: string): (r: Result<int>)
    ensures r.Ok? <==> ScanInteger(s).Some? && IntMin <= ScanInteger(s).value <= IntMax
    ensures r.Ok? ==> r.value == ScanInteger(s).value
  {
    match ScanInteger(s)
    case None => Err(InvalidNumber(s))
    case Some(v) => if IntMin <= v <= IntMax then Ok(v) else Err(NumberOutOfRange(s))
  }

  /** `std::stoul` with a 64-bit `unsigned long`: a magnitude of 2^64 or more
      is `out_of_range`; a negative value is negated in unsigned arithmetic,
      so it wraps round modulo 2^64. */
  function Stoul(s: string): (r: Result<nat>)
    ensures r.Ok? <==> ScanInteger(s).Some? && -ULongLimit < ScanInteger(s).value < ULongLimit
    ensures r.Ok? ==> r.value < ULongLimit && (r.value - ScanInteger(s).value) % ULongLimit == 0
  {
    match ScanInteger(s)
    case None => Err(InvalidNumber(s))
    case Some(v) => if -ULongLimit < v < ULongLimit then Ok(if v < 0 then ULongLimit + v else v) else Err(NumberOutOfRange(s))
  }

  /** What stoi returns once the number is read: the value when it fits in
      a 32-bit `int`, `out_of_range` otherwise. */
  lemma StoiOf(s: string, v: int)
    requires ScanInteger(s) == Some(v)
    ensures Stoi(s) == if IntMin <= v <= IntMax then Ok(v) else Err(NumberOutOfRange(s))
  {
  }

  /** stoi reads back what to_string prints, with or without a minus sign,
      over the whole `int` range. */
  lemma StoiToString(n: nat)
    ensures n <= IntMax ==> Stoi(NatToString(n)) == Ok(n)
    ensures n <= -IntMin ==> Stoi("-" + NatToString(n)) == Ok(-(n as int))
    ensures n > IntMax ==> Stoi(NatToString(n)) == Err(NumberOutOfRange(NatToString(n)))
  {
    ScanNatToString(n);
    ScanNegative(n);
  }

  /** What stoul returns once the number is read: a value below 2^64 as
      itself, a negative one of magnitude below 2^64 wrapped round to
      2^64 minus the magnitude, anything else `out_of_range`. */
  lemma StoulOf(s: string, v: int)
    requires ScanInteger(s) == Some(v)
    ensures Stoul(s) ==
      if 0 <= v < ULongLimit then Ok(v)
      else if -ULongLimit < v < 0 then Ok(ULongLimit + v)
      else Err(NumberOutOfRange(s))
  {
  }

  /** stoul of a minus sign and a magnitude below 2^64 is 2^64 minus the
      magnitude; "-1" gives the largest `unsigned long`. */
  lemma StoulNegative(n: nat)
    requires 0 < n < ULongLimit
    ensures Stoul("-" + NatToString(n)) == Ok(ULongLimit - n)
  {
    NegativeStoul("-" + NatToString(n), n);
  }

  lemma NegativeStoul(s: string, n: nat)
    requires s == "-" + NatToString(n) && 0 < n < ULongLimit
    ensures Stoul(s) == Ok(ULongLimit - n)
  {
    ScanNegative(n);
    StoulOf(s, -(n as int));
  }

  /** A minus sign in front of a printed number reads as its negation. */
  lemma ScanNegative(n: nat)
    ensures ScanInteger("-" + NatToString(n)) == Some(-(n as int))
  {
    var digits := NatToString(n);
    var s := "-" + digits;
    assert TrimStart(s) == s;
    assert s[1..] == digits;
    DigitPrefixOf(digits, []);
    assert digits + [] == digits;
    NatToStringValue(n);
  }

  /** A run of digits followed by something that is not a digit reads as
      the value of the digits alone. */
  lemma {:induction false} ScanDigitsThen(digits: string, rest: string)
    requires |digits| > 0 && AllDigits(digits)
    requires rest == [] || !IsDigit(rest[0])
    ensures ScanInteger(digits + rest) == Some(DigitsValue(digits))
  {
    var s := digits + rest;
    assert s[0] == digits[0];
    DigitPrefixOf(digits, rest);
  }

  /** A single digit reads as its own value. */
  lemma SingleDigit(s: string)
    requires |s| == 1 && IsDigit(s[0])
    ensures Stoi(s) == Ok(DigitValue(s[0]))
  {
    ScanDigits(s);
    SingleDigitValue(s);
  }

  /** A string of digits alone reads as its value. */
  lemma ScanDigits(s: string)
    requires |s| > 0 && AllDigits(s)
    ensures ScanInteger(s) == Some(DigitsValue(s))
  {
    ScanDigitsThen(s, []);
    assert s + [] == s;
  }

  lemma SingleDigitValue(s: string)
    requires |s| == 1 && IsDigit(s[0])
    ensures DigitsValue(s) == DigitValue(s[0])
  {
    assert s[..0] == [];
  }

  lemma {:induction false} DigitPrefixOf(digits: string, rest: string)
    requires AllDigits(digits)
    requires rest == [] || !IsDigit(rest[0])
    ensures DigitPrefix(digits + rest) == digits
  {
    if digits != [] {
      assert (digits + rest)[1..] == digits[1..] + rest;
      DigitPrefixOf(digits[1..], rest);
    } else {
      assert digits + rest == rest;
    }
  }

  /** `std::to_string` of a non-negative number: its shortest decimal form. */
  function NatToString(n: nat): (r: string)
    ensures |r| > 0 && AllDigits(r)
    ensures r[0] == '0' ==> n == 0
  {
    if n < 10 then [DigitChar(n)] else NatToString(n / 10) + [DigitChar(n % 10)]
  }

  /** The printed digits have the printed number as their value. */
  lemma {:induction false} NatToStringValue(n: nat)
    ensures DigitsValue(NatToString(n)) == n
  {
    var s := NatToString(n);
    if n >= 10 {
      NatToStringValue(n / 10);
      assert s[..|s| - 1] == NatToString(n / 10);
      assert DigitValue(s[|s| - 1]) == n % 10;
      assert DigitsValue(s) == 10 * (n / 10) + n % 10;
    }
  }

  /** Printing a number and reading it back gives the number. */
  lemma ScanNatToString(n: nat)
    ensures ScanInteger(NatToString(n)) == Some(n)
  {
    NatToStringValue(n);
    ScanDigitsThen(NatToString(n), []);
    assert NatToString(n) + [] == NatToString(n);
  }

  /** Different numbers print differently. */
  lemma NatToStringInjective(m: nat, n: nat)
    ensures NatToString(m) == NatToString(n) <==> m == n
  {
    NatToStringValue(m);
    NatToStringValue(n);
  }

  /** A printed number holds neither whitespace nor a slash. */
  lemma NatToStringPlain(n: nat)
    ensures NoSpace(NatToString(n)) && '/' !in NatToString(n)
  {
  }
}
