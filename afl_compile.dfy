/**
 * `fuzz-afl/src/compile.rs`: turns a text file of votes, one `name votes vote-for` line each,
 * into 3-byte records: the voter's number, the chosen candidate's number and the votes. Names on
 * the fixed list of names get their position on it; any other name gets the next number counting
 * down from 255. (The AFL target in `fuzz-afl/src/fuzz.rs` passes its input to `fuzzable`, whose
 * records are 4 bytes wide, flags first; see `FuzzableDecoder`.)
 */
module AflCompile {
  import opened Wrappers
  import opened MachineInts
  import opened AflText

  // ---------------------------------------------------------------------------------------
  // get_num

  /** What `get_num` remembers between calls: `next_num` and `number_by_name`. */
  datatype Numbering = Numbering(nextNum: u8, numberByName: map<string, u8>)

  const Unnumbered := Numbering(255, map[])

  /** The last position of `name` among the first `k` names. */
  function LastIndex(names: seq<string>, name: string, k: nat): Option<nat>
    requires k <= |names|
  {
    if k == 0 then None
    else if names[k - 1] == name then Some(k - 1)
    else LastIndex(names, name, k - 1)
  }

  /** The number a listed name gets: its last position, cut to a byte by `as u8`. */
  function ListedNumber(names: seq<string>, name: string): Option<u8> {
    match LastIndex(names, name, |names|)
    case Some(i) => Some((i % 0x100) as u8)
    case None => None
  }

  /**
   * `get_num`: a remembered name keeps its number; otherwise a listed name gets its position and
   * any other name the current `next_num`, which then counts down. Counting down from zero is the
   * `u8` underflow that panics.
   */
  function GetNum(names: seq<string>, t: Numbering, name: string): Result<(u8, Numbering)> {
    if name in t.numberByName then Ok((t.numberByName[name], t))
    else
      match ListedNumber(names, name)
      case Some(num) => Ok((num, t.(numberByName := t.numberByName[name := num])))
      case None =>
        if t.nextNum == 0 then Panic("attempt to subtract with overflow")
        else Ok((t.nextNum, Numbering(t.nextNum - 1, t.numberByName[name := t.nextNum])))
  }

  lemma {:induction false} LastIndexSpec(names: seq<string>, name: string, k: nat)
    requires k <= |names|
    ensures LastIndex(names, name, k).Some? <==> name in names[..k]
    ensures LastIndex(names, name, k).Some? ==>
      var i := LastIndex(names, name, k).value;
      && i < k && names[i] == name
      && forall j | i < j < k :: names[j] != name
  {
    if k > 0 {
      LastIndexSpec(names, name, k - 1);
      assert names[..k] == names[..k - 1] + [names[k - 1]];
    }
  }

  /** The names that are not on the list but have a number. */
  function Unlisted(names: seq<string>, t: Numbering): set<string> {
    set n | n in t.numberByName && ListedNumber(names, n).None?
  }

  /**
   * What holds of the remembered numbers: listed names have their position, unlisted names have
   * distinct numbers above `next_num`, and `next_num` has counted down once per unlisted name.
   */
  predicate Consistent(names: seq<string>, t: Numbering) {
    && (forall n | n in t.numberByName && ListedNumber(names, n).Some? ::
          t.numberByName[n] == ListedNumber(names, n).value)
    && (forall n | n in t.numberByName && ListedNumber(names, n).None? :: t.nextNum < t.numberByName[n])
    && (forall a, b | a in Unlisted(names, t) && b in Unlisted(names, t) && a != b ::
          t.numberByName[a] != t.numberByName[b])
    && |Unlisted(names, t)| + t.nextNum as int == 255
  }

  lemma UnnumberedConsistent(names: seq<string>)
    ensures Consistent(names, Unnumbered)
  {
    assert Unlisted(names, Unnumbered) == {};
  }

  /** A listed name gets its last position on the list, cut to a byte. */
  lemma ListedNumberSpec(names: seq<string>, name: string)
    ensures ListedNumber(names, name).Some? <==> name in names
    ensures ListedNumber(names, name).Some? ==>
      exists i | 0 <= i < |names| :: names[i] == name && ListedNumber(names, name).value as int == i % 0x100
        && forall j | i < j < |names| :: names[j] != name
  {
    LastIndexSpec(names, name, |names|);
    assert names[..|names|] == names;
  }

  /** Numbering a new listed name changes no unlisted number. */
  lemma NumberListed(names: seq<string>, t: Numbering, name: string)
    requires Consistent(names, t)
    requires name !in t.numberByName && ListedNumber(names, name).Some?
    ensures Consistent(names, GetNum(names, t, name).value.1)
  {
    var t' := GetNum(names, t, name).value.1;
    assert Unlisted(names, t') == Unlisted(names, t);
  }

  /** Numbering a new unlisted name adds it to the unlisted names with the old `next_num`. */
  lemma NumberUnlisted(names: seq<string>, t: Numbering, name: string)
    requires Consistent(names, t)
    requires name !in t.numberByName && ListedNumber(names, name).None? && t.nextNum > 0
    ensures Consistent(names, GetNum(names, t, name).value.1)
  {
    var t' := GetNum(names, t, name).value.1;
    var m, m' := t.numberByName, t'.numberByName;
    assert t' == Numbering(t.nextNum - 1, m[name := t.nextNum]);
    forall n | n in m' && ListedNumber(names, n).None? ensures t'.nextNum < m'[n] {
      if n != name {
        assert n in m && m'[n] == m[n];
      }
    }
    assert Unlisted(names, t') == Unlisted(names, t) + {name};
    assert name !in Unlisted(names, t);
    forall a, b | a in Unlisted(names, t') && b in Unlisted(names, t') && a != b ensures m'[a] != m'[b] {
      if a == name {
        assert b in Unlisted(names, t) && t.nextNum < m[b];
      } else if b == name {
        assert a in Unlisted(names, t) && t.nextNum < m[a];
      } else {
        assert a in Unlisted(names, t) && b in Unlisted(names, t);
      }
    }
  }

  /**
   * `get_num` keeps the numbering consistent, remembers what it returns, and returns the same
   * number when asked again. A listed name gets its position; an unlisted one the old `next_num`.
   * It panics exactly on a new unlisted name after 255 of them have been numbered.
   */
  lemma GetNumSpec(names: seq<string>, t: Numbering, name: string)
    requires Consistent(names, t)
    ensures GetNum(names, t, name).Panic? <==>
      name !in t.numberByName && name !in names && |Unlisted(names, t)| == 255
    ensures GetNum(names, t, name).Ok? ==>
      var (num, t') := GetNum(names, t, name).value;
      && Consistent(names, t')
      && name in t'.numberByName && t'.numberByName[name] == num
      && (forall n | n in t.numberByName :: n in t'.numberByName && t'.numberByName[n] == t.numberByName[n])
      && GetNum(names, t', name) == Ok((num, t'))
      && (name in names ==> ListedNumber(names, name) == Some(num))
      && (name !in t.numberByName && name !in names ==> num == t.nextNum && t'.nextNum == t.nextNum - 1)
  {
    ListedNumberSpec(names, name);
    if name !in t.numberByName {
      if ListedNumber(names, name).Some? {
        NumberListed(names, t, name);
      } else if t.nextNum > 0 {
        NumberUnlisted(names, t, name);
      }
    }
  }

  /** The closure `get_num` and the two variables it updates. */
  class NameTable {
    const names: seq<string>
    var nextNum: u8
    var numberByName: map<string, u8>

    function State(): Numbering
      reads this
    {
      Numbering(nextNum, numberByName)
    }

    constructor(names: seq<string>)
      ensures this.names == names && State() == Unnumbered
    {
      this.names := names;
      nextNum := 255;
      numberByName := map[];
    }

    /** `get_num`, the list scanned to its end so that the last position wins. */
    method GetNumber(name: string) returns (r: Result<u8>)
      modifies this
      ensures match GetNum(names, old(State()), name)
        case Ok((num, t)) => r == Ok(num) && State() == t
        case Panic(e) => r == Panic(e)
    {
      if name in numberByName {
        return Ok(numberByName[name]);
      }
      var num: Option<u8> := None;
      for i := 0 to |names|
        invariant num == match LastIndex(names, name, i)
                         case Some(j) => Some((j % 0x100) as u8)
                         case None => None
      {
        if names[i] == name {
          num := Some((i % 0x100) as u8);
        }
      }
      var n: u8;
      if num.Some? {
        n := num.value;
      } else {
        if nextNum == 0 {
          return Panic("attempt to subtract with overflow");
        }
        nextNum := nextNum - 1;
        n := nextNum + 1;
      }
      numberByName := numberByName[name := n];
      r := Ok(n);
    }
  }

  // ---------------------------------------------------------------------------------------
  // The lines

  /** What a run leaves behind: the bytes written and, if it panicked, the panic. */
  datatype Run = Run(output: seq<u8>, failure: Option<string>)

  /** The effect of one line: bytes written, a panic or none, and the numbering after it. */
  datatype Step = Step(output: seq<u8>, failure: Option<string>, table: Numbering)

  /** A trimmed line that is empty or starts with `#` is skipped. */
  predicate Skipped(line: string) {
    line == "" || line[0] == '#'
  }

  /**
   * One trimmed line split on single spaces: word 0 is the voter, word 1 the votes (a parse error
   * panics), and word 2 the chosen candidate, whose record `[who, vote_for, votes]` is written as
   * soon as it is read, the voter numbered first. A fourth word panics after that.
   */
  function CompileWords(names: seq<string>, line: string, words: seq<string>, t: Numbering): Step {
    if |words| < 2 then Step([], None, t)
    else
      match ParseU8(words[1])
      case Panic(e) => Step([], Some(e), t)
      case Ok(votes) =>
        if |words| < 3 then Step([], None, t)
        else
          match GetNum(names, t, words[0])
          case Panic(e) => Step([], Some(e), t)
          case Ok((who, t1)) =>
            match GetNum(names, t1, words[2])
            case Panic(e) => Step([], Some(e), t1)
            case Ok((vf, t2)) =>
              var failure := if |words| == 3 then None
                             else Some("Unexpected number of words on line: " + line);
              Step([who, vf, votes], failure, t2)
  }

  /** One line of input. */
  function CompileLine(names: seq<string>, line: string, t: Numbering): Step {
    var line := Trim(line);
    if Skipped(line) then Step([], None, t) else CompileWords(names, line, Split(line), t)
  }

  /** The lines from the numbering `t` on, each handled by `handle`, stopping at the first panic. */
  function RunLines(handle: (string, Numbering) -> Step, lines: seq<string>, t: Numbering): Run {
    if lines == [] then Run([], None)
    else
      var step := handle(lines[0], t);
      if step.failure.Some? then Run(step.output, step.failure)
      else
        var rest := RunLines(handle, lines[1..], step.table);
        Run(step.output + rest.output, rest.failure)
  }

  /** `main` on the lines of its input; the numbering carries over from line to line. */
  function Compile(names: seq<string>, lines: seq<string>): Run {
    RunLines((line, t) => CompileLine(names, line, t), lines, Unnumbered)
  }

  // ---------------------------------------------------------------------------------------
  // Properties of the lines

  /** Blank lines and comments write nothing and number nobody. */
  lemma SkippedLineWritesNothing(names: seq<string>, line: string, t: Numbering)
    requires Skipped(Trim(line))
    ensures CompileLine(names, line, t) == Step([], None, t)
  {
  }

  /**
   * A line writes one whole record or nothing. It writes exactly when it has at least three
   * words and the votes parse and both names get a number; the record is the two numbers and the
   * votes. It panics exactly when the votes do not parse, a name cannot be numbered, or a fourth
   * word follows (after its record was written).
   */
  lemma CompileWordsSpec(names: seq<string>, line: string, words: seq<string>, t: Numbering)
    requires Consistent(names, t)
    ensures var step := CompileWords(names, line, words, t);
      && Consistent(names, step.table)
      && (step.output == [] || |step.output| == 3)
      && (|step.output| == 3 <==>
            && |words| >= 3
            && ParseU8(words[1]).Ok?
            && GetNum(names, t, words[0]).Ok?
            && GetNum(names, GetNum(names, t, words[0]).value.1, words[2]).Ok?)
      && (|step.output| == 3 ==>
            var (who, t1) := GetNum(names, t, words[0]).value;
            var (vf, t2) := GetNum(names, t1, words[2]).value;
            step.output == [who, vf, ParseU8(words[1]).value] && step.table == t2)
      && (step.failure.Some? <==>
            || (|words| >= 2 && ParseU8(words[1]).Panic?)
            || (|step.output| == 0 && |words| >= 3)
            || (|step.output| == 3 && |words| > 3))
  {
    if |words| >= 3 && ParseU8(words[1]).Ok? {
      GetNumSpec(names, t, words[0]);
      if GetNum(names, t, words[0]).Ok? {
        GetNumSpec(names, GetNum(names, t, words[0]).value.1, words[2]);
      }
    }
  }

  lemma SplitExample()
    ensures Split("a 7 b") == ["a", "7", "b"]
  {
    assert "b"[1..] == "" && " b"[1..] == "b" && "7 b"[1..] == " b" && " 7 b"[1..] == "7 b";
    assert "a 7 b"[1..] == " 7 b";
    assert Split("") == [""];
    assert ['b'] + "" == "b" && ['7'] + "" == "7" && ['a'] + "" == "a";
    assert Split("b") == [['b'] + Split("")[0]] + Split("")[1..];
    assert Split(" b") == ["", "b"];
    assert Split("7 b") == [['7'] + Split(" b")[0]] + Split(" b")[1..];
    assert Split(" 7 b") == ["", "7", "b"];
    assert Split("a 7 b") == [['a'] + Split(" 7 b")[0]] + Split(" 7 b")[1..];
  }

  /** The voter is numbered before the chosen candidate: two new names get 255 and 254. */
  lemma VoterNumberedFirst()
    ensures CompileLine([], "a 7 b", Unnumbered).output == [255, 254, 7]
  {
    SplitExample();
    assert Trim("a 7 b") == "a 7 b";
    assert ParseU8("7") == Ok(7);
    assert GetNum([], Unnumbered, "a") == Ok((255, Numbering(254, map["a" := 255])));
  }

  /** A line writes one whole record or nothing, and keeps the numbering consistent. */
  lemma CompileLineSpec(names: seq<string>, line: string, t: Numbering)
    ensures var step := CompileLine(names, line, t);
      && (step.output == [] || |step.output| == 3)
      && (Consistent(names, t) ==> Consistent(names, step.table))
  {
    var line := Trim(line);
    if !Skipped(line) && Consistent(names, t) {
      CompileWordsSpec(names, line, Split(line), t);
    }
  }

  lemma WholeRecords(a: seq<u8>, b: seq<u8>)
    requires (a == [] || |a| == 3) && |b| % 3 == 0
    ensures |a + b| % 3 == 0
  {
  }

  /** A step that wrote nothing or one record. */
  predicate OneRecord(step: Step) {
    step.output == [] || |step.output| == 3
  }

  /** When every line writes one record or nothing, a run writes whole records. */
  lemma {:induction false} RunLinesWhole(handle: (string, Numbering) -> Step, lines: seq<string>, t: Numbering)
    requires forall line, u :: OneRecord(handle(line, u))
    ensures |RunLines(handle, lines, t).output| % 3 == 0
  {
    if lines != [] {
      var step := handle(lines[0], t);
      if step.failure.None? {
        var rest := RunLines(handle, lines[1..], step.table);
        RunLinesWhole(handle, lines[1..], step.table);
        WholeRecords(step.output, rest.output);
      }
    }
  }

  /** The output of a run is a sequence of whole 3-byte records. */
  lemma CompileWritesRecords(names: seq<string>, lines: seq<string>)
    ensures |Compile(names, lines).output| % 3 == 0
  {
    var handle := (line, t) => CompileLine(names, line, t);
    forall line, u ensures OneRecord(handle(line, u)) {
      CompileLineSpec(names, line, u);
    }
    RunLinesWhole(handle, lines, Unnumbered);
  }

  /** Once a line panics, the lines after it are never read. */
  lemma {:induction false} PanicEndsRun(handle: (string, Numbering) -> Step, lines: seq<string>,
                                        more: seq<string>, t: Numbering)
    requires RunLines(handle, lines, t).failure.Some?
    ensures RunLines(handle, lines + more, t) == RunLines(handle, lines, t)
  {
    var step := handle(lines[0], t);
    assert (lines + more)[0] == lines[0];
    if step.failure.None? {
      assert (lines + more)[1..] == lines[1..] + more;
      PanicEndsRun(handle, lines[1..], more, step.table);
    }
  }

  /** Appending lines to a run that panicked changes nothing. */
  lemma CompileStopsAtPanic(names: seq<string>, lines: seq<string>, more: seq<string>)
    requires Compile(names, lines).failure.Some?
    ensures Compile(names, lines + more) == Compile(names, lines)
  {
    PanicEndsRun((line, t) => CompileLine(names, line, t), lines, more, Unnumbered);
  }

  // ---------------------------------------------------------------------------------------
  // The program

  /** The loop over the words of one trimmed, non-skipped line. */
  method CompileWordsLoop(table: NameTable, line: string) returns (written: seq<u8>, failure: Option<string>)
    modifies table
    ensures var step := CompileWords(table.names, line, Split(line), old(table.State()));
      written == step.output && failure == step.failure &&
      (failure.None? ==> table.State() == step.table)
  {
    ghost var t0 := table.State();
    var words := Split(line);
    var name: Option<string> := None;
    var votes: u8 := 0;
    written := [];
    failure := None;
    for i := 0 to |words|
      invariant i >= 1 ==> name == Some(words[0])
      invariant i >= 2 ==> ParseU8(words[1]) == Ok(votes)
      invariant i <= 2 ==> written == [] && table.State() == t0
      invariant i == |words| ==> CompileWords(table.names, line, words, t0) == Step(written, None, table.State())
      invariant i >= 3 ==> i == 3
      invariant i == 3 ==>
        var step := CompileWords(table.names, line, words, t0);
        && written == step.output && table.State() == step.table
        && step.failure == if |words| == 3 then None else Some("Unexpected number of words on line: " + line)
    {
      if i == 0 {
        name := Some(words[0]);
      } else if i == 1 {
        var parsed := ParseU8(words[1]);
        if parsed.Panic? {
          return written, Some(parsed.reason);
        }
        votes := parsed.value;
      } else if i == 2 {
        var who := table.GetNumber(name.value);
        if who.Panic? {
          return written, Some(who.reason);
        }
        var vf := table.GetNumber(words[2]);
        if vf.Panic? {
          return written, Some(vf.reason);
        }
        written := [who.value, vf.value, votes];
      } else {
        return written, Some("Unexpected number of words on line: " + line);
      }
    }
  }

  /** The body of the loop over the lines: trims the line and skips it or compiles its words. */
  method CompileOneLine(table: NameTable, line: string) returns (written: seq<u8>, failure: Option<string>)
    modifies table
    ensures var step := CompileLine(table.names, line, old(table.State()));
      written == step.output && failure == step.failure &&
      (failure.None? ==> table.State() == step.table)
  {
    var line := Trim(line);
    if Skipped(line) {
      return [], None;
    }
    written, failure := CompileWordsLoop(table, line);
  }

  /** The run from line `k` on handles line `k` and, unless it panics, goes on from line `k + 1`. */
  lemma RunLinesStep(handle: (string, Numbering) -> Step, lines: seq<string>, k: nat, t: Numbering)
    requires k < |lines|
    ensures var step := handle(lines[k], t);
      var rest := RunLines(handle, lines[k + 1..], step.table);
      RunLines(handle, lines[k..], t) ==
        if step.failure.Some? then Run(step.output, step.failure) else Run(step.output + rest.output, rest.failure)
  {
    assert lines[k..][0] == lines[k] && lines[k..][1..] == lines[k + 1..];
  }

  /** `main`: every line of the input in order; the first panic ends the run. */
  method CompileInput(names: seq<string>, lines: seq<string>) returns (run: Run)
    ensures run == Compile(names, lines)
  {
    ghost var handle := (line, t) => CompileLine(names, line, t);
    var table := new NameTable(names);
    var output: seq<u8> := [];
    for k := 0 to |lines|
      invariant table.names == names
      invariant Compile(names, lines) ==
        var rest := RunLines(handle, lines[k..], table.State());
        Run(output + rest.output, rest.failure)
    {
      RunLinesStep(handle, lines, k, table.State());
      var written, failure := CompileOneLine(table, lines[k]);
      output := output + written;
      if failure.Some? {
        return Run(output, failure);
      }
    }
    run := Run(output, None);
  }
}
