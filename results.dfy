/** Option, Result and the error kinds both translators can raise, plus the
    line-collecting fold that both parsers' parseFile loops perform. */
module Results {

  datatype Option<+T> = None | Some(value: T)

  /** One constructor per exception the translators throw (or, for the
      C++ undefined behaviour of a missing token, per case the model turns
      into an error). */
  datatype Error =
    | InvalidJump(jump: string)          // parse.cpp: jump text not in jump_lookup
    | InvalidComp(comp: string)          // assemble.cpp: comp not in comp_map
    | InvalidDest(dest: string)          // assemble.cpp: dest not in dest_map
    | InvalidNumber(text: string)        // stoi / stoul found no digits
    | NumberOutOfRange(text: string)     // stoi / stoul: value does not fit int / unsigned long
    | UnknownSegment(segment: string)    // vm/parse.cpp: segment not in the table
    | MissingOperand(line: string)       // push/pop without segment or index
    | CouldNotParse(line: string)        // vm/parse.cpp: unknown first word
    | CannotPopConstant                  // vm.cpp: pop constant

  datatype Result<+T> = Ok(value: T) | Err(error: Error)

  /** Puts `prefix` in front of a successful list; an error passes through. */
  function Prepend<T>(prefix: seq<T>, r: Result<seq<T>>): Result<seq<T>>
  {
    match r
    case Ok(rest) => Ok(prefix + rest)
    case Err(e) => Err(e)
  }

  /** Putting two prefixes in front one after the other is putting their
      concatenation in front. */
  lemma PrependPrepend<T>(a: seq<T>, b: seq<T>, r: Result<seq<T>>)
    ensures Prepend(a, Prepend(b, r)) == Prepend(a + b, r)
  {
    if r.Ok? {
      assert a + (b + r.value) == (a + b) + r.value;
    }
  }

  lemma PrependNothing<T>(r: Result<seq<T>>)
    ensures Prepend([], r) == r
  {
    if r.Ok? {
      assert [] + r.value == r.value;
    }
  }

  /** Reads the lines in order, keeps what `parse` produced for each line
      that produced something, and stops at the first line that fails. */
  function Collect<T>(lines: seq<string>, parse: string -> Result<Option<T>>): Result<seq<T>>
  {
    if lines == [] then Ok([])
    else
      match parse(lines[0])
      case Err(e) => Err(e)
      case Ok(None) => Collect(lines[1..], parse)
      case Ok(Some(x)) => Prepend([x], Collect(lines[1..], parse))
  }

  /** Collecting succeeds exactly when every single line parses. */
  lemma {:induction false} CollectOk<T>(lines: seq<string>, parse: string -> Result<Option<T>>)
    ensures Collect(lines, parse).Ok? <==> forall i :: 0 <= i < |lines| ==> parse(lines[i]).Ok?
  {
    if lines != [] {
      CollectOk(lines[1..], parse);
      assert forall i :: 1 <= i < |lines| ==> lines[i] == lines[1..][i - 1];
    }
  }

  /** When the first failing line is line `i`, its error is the result. */
  lemma {:induction false} CollectFirstError<T>(lines: seq<string>, parse: string -> Result<Option<T>>, i: nat)
    requires i < |lines| && parse(lines[i]).Err?
    requires forall j :: 0 <= j < i ==> parse(lines[j]).Ok?
    ensures Collect(lines, parse) == Err(parse(lines[i]).error)
  {
    if i > 0 {
      assert forall j :: 0 <= j < i - 1 ==> lines[1..][j] == lines[j + 1];
      CollectFirstError(lines[1..], parse, i - 1);
    }
  }

  /** `idx` lists, strictly increasing, the lines that produced `values`,
      one value each, and every other line produced nothing. */
  ghost predicate Keeps<T>(lines: seq<string>, parse: string -> Result<Option<T>>, values: seq<T>, idx: seq<nat>)
  {
    && |idx| == |values|
    && (forall k :: 0 <= k < |idx| ==> idx[k] < |lines| && parse(lines[idx[k]]) == Ok(Some(values[k])))
    && (forall k, m :: 0 <= k < m < |idx| ==> idx[k] < idx[m])
    && (forall i :: 0 <= i < |lines| && i !in idx ==> parse(lines[i]) == Ok(None))
  }

  /** A successful collection keeps exactly the lines that produced a value,
      in source order. */
  lemma {:induction false} CollectKeeps<T>(lines: seq<string>, parse: string -> Result<Option<T>>)
    returns (idx: seq<nat>)
    requires Collect(lines, parse).Ok?
    ensures Keeps(lines, parse, Collect(lines, parse).value, idx)
  {
    if lines == [] {
      idx := [];
    } else {
      var tail := lines[1..];
      var rest := CollectKeeps(tail, parse);
      var values := Collect(tail, parse).value;
      match parse(lines[0])
      case Ok(Some(x)) =>
        KeepsTake(lines, parse, x, values, rest);
        idx := [0] + Shift(rest);
      case Ok(None) =>
        KeepsSkip(lines, parse, values, rest);
        idx := Shift(rest);
    }
  }

  /** Every index one further. */
  function Shift(idx: seq<nat>): (r: seq<nat>)
    ensures |r| == |idx| && forall k :: 0 <= k < |idx| ==> r[k] == idx[k] + 1
  {
    seq(|idx|, k requires 0 <= k < |idx| => idx[k] + 1)
  }

  lemma KeepsSkip<T>(lines: seq<string>, parse: string -> Result<Option<T>>, values: seq<T>, rest: seq<nat>)
    requires |lines| > 0 && parse(lines[0]) == Ok(None)
    requires Keeps(lines[1..], parse, values, rest)
    ensures Keeps(lines, parse, values, Shift(rest))
  {
    var tail := lines[1..];
    var shifted := Shift(rest);
    forall k | 0 <= k < |rest|
      ensures shifted[k] < |lines| && parse(lines[shifted[k]]) == Ok(Some(values[k]))
    {
      assert lines[shifted[k]] == tail[rest[k]];
    }
    forall i | 0 <= i < |lines| && i !in shifted
      ensures parse(lines[i]) == Ok(None)
    {
      if i > 0 {
        assert lines[i] == tail[i - 1];
        forall k | 0 <= k < |rest| ensures rest[k] != i - 1 {
          assert shifted[k] in shifted;
        }
      }
    }
  }

  lemma KeepsTake<T>(lines: seq<string>, parse: string -> Result<Option<T>>, x: T, values: seq<T>, rest: seq<nat>)
    requires |lines| > 0 && parse(lines[0]) == Ok(Some(x))
    requires Keeps(lines[1..], parse, values, rest)
    ensures Keeps(lines, parse, [x] + values, [0] + Shift(rest))
  {
    TakeValues(lines, parse, x, values, rest);
    TakeOrdered(rest);
    TakeOthers(lines, parse, values, rest);
  }

  lemma TakeValues<T>(lines: seq<string>, parse: string -> Result<Option<T>>, x: T, values: seq<T>, rest: seq<nat>)
    requires |lines| > 0 && parse(lines[0]) == Ok(Some(x))
    requires Keeps(lines[1..], parse, values, rest)
    ensures var idx := [0] + Shift(rest); var all := [x] + values;
      forall k :: 0 <= k < |idx| ==> idx[k] < |lines| && parse(lines[idx[k]]) == Ok(Some(all[k]))
  {
    var tail := lines[1..];
    var shifted := Shift(rest);
    var idx := [0] + shifted;
    var all := [x] + values;
    forall k | 0 <= k < |idx|
      ensures idx[k] < |lines| && parse(lines[idx[k]]) == Ok(Some(all[k]))
    {
      if k > 0 {
        assert idx[k] == shifted[k - 1] && all[k] == values[k - 1];
        assert lines[shifted[k - 1]] == tail[rest[k - 1]];
      }
    }
  }

  lemma TakeOrdered(rest: seq<nat>)
    requires forall k, m :: 0 <= k < m < |rest| ==> rest[k] < rest[m]
    ensures var idx := [0] + Shift(rest); forall k, m :: 0 <= k < m < |idx| ==> idx[k] < idx[m]
  {
    var shifted := Shift(rest);
    var idx := [0] + shifted;
    forall k, m | 0 <= k < m < |idx| ensures idx[k] < idx[m] {
      assert idx[m] == shifted[m - 1];
      if k > 0 {
        assert idx[k] == shifted[k - 1];
      }
    }
  }

  lemma TakeOthers<T>(lines: seq<string>, parse: string -> Result<Option<T>>, values: seq<T>, rest: seq<nat>)
    requires |lines| > 0
    requires Keeps(lines[1..], parse, values, rest)
    ensures var idx := [0] + Shift(rest);
      forall i :: 0 <= i < |lines| && i !in idx ==> parse(lines[i]) == Ok(None)
  {
    var tail := lines[1..];
    var shifted := Shift(rest);
    var idx := [0] + shifted;
    forall i | 0 <= i < |lines| && i !in idx
      ensures parse(lines[i]) == Ok(None)
    {
      assert i > 0 && i !in shifted;
      assert lines[i] == tail[i - 1];
      forall k | 0 <= k < |rest| ensures rest[k] != i - 1 {
        assert shifted[k] in shifted;
      }
    }
  }

  /** A line that produced a value has its value among the collected ones. */
  lemma CollectHas<T>(lines: seq<string>, parse: string -> Result<Option<T>>, j: nat, x: T) returns (k: nat)
    requires Collect(lines, parse).Ok? && j < |lines| && parse(lines[j]) == Ok(Some(x))
    ensures k < |Collect(lines, parse).value| && Collect(lines, parse).value[k] == x
  {
    var idx := CollectKeeps(lines, parse);
    assert j in idx;
    k :| 0 <= k < |idx| && idx[k] == j;
  }

  /** Collecting a concatenation collects the first part, then the second. */
  lemma {:induction false} CollectAppend<T>(a: seq<string>, b: seq<string>, parse: string -> Result<Option<T>>)
    ensures Collect(a + b, parse) ==
      match Collect(a, parse)
      case Err(e) => Err(e)
      case Ok(xs) => Prepend(xs, Collect(b, parse))
  {
    if a == [] {
      assert a + b == b;
      match Collect(b, parse)
      case Ok(ys) => assert [] + ys == ys;
      case Err(_) =>
    } else {
      assert (a + b)[0] == a[0];
      assert (a + b)[1..] == a[1..] + b;
      CollectAppend(a[1..], b, parse);
      match Collect(b, parse)
      case Err(_) =>
      case Ok(ys) =>
        match Collect(a[1..], parse)
        case Err(_) =>
        case Ok(zs) =>
          match parse(a[0])
          case Err(_) =>
          case Ok(None) =>
          case Ok(Some(x)) => assert [x] + (zs + ys) == ([x] + zs) + ys;
    }
  }
}
