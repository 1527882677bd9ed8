/**
 * The whole script: the significant lines are found, the first one gives
 * the configuration, the others the instruction table, and the machine is
 * run from the start label on the initial registers.
 */
module RegisterMachine {
  import opened Text
  import opened Wrappers
  import opened Syntax
  import opened Preprocess
  import opened ConfigLine
  import opened Instructions
  import opened Table
  import opened Engine

  datatype Loaded = Loaded(start: string, regs: seq<nat>, prog: Program)

  /** The load of a program text given as its raw lines. */
  function Load(raw: seq<string>): (r: Result<Loaded, LoadError>)
    ensures Lines(raw) == [] ==> r == Err(EmptyProgram)
    ensures r.Ok? ==> IsNumeral(r.value.start)
  {
    var lines := Lines(raw);
    if lines == [] then Err(EmptyProgram)
    else
      match ParseConfig(lines[0])
      case Err(e) => Err(e)
      case Ok(c) =>
        match ParseTable(lines[1..])
        case Err(e) => Err(e)
        case Ok(t) => Ok(Loaded(c.start, c.regs, t))
  }

  /**
   * A program loads exactly when it has a significant line with a digit
   * first, and every later significant line is a well-formed instruction
   * with a label of its own; the table then holds exactly those labels.
   */
  lemma LoadOk(raw: seq<string>)
    ensures var lines := Lines(raw);
            Load(raw).Ok? <==>
              && lines != []
              && (exists i :: 0 <= i < |lines[0]| && IsDigit(lines[0][i]))
              && (forall k :: 1 <= k < |lines| ==> WellFormed(lines[k]))
              && DistinctLabels(lines[1..])
    ensures Load(raw).Ok? ==>
              var lines := Lines(raw);
              && Load(raw).value.prog.Keys == Labels(lines[1..])
              && |Load(raw).value.prog| == |lines| - 1
  {
    var lines := Lines(raw);
    if lines != [] {
      TableOk(lines[1..]);
      LaterLines(lines);
    }
  }

  lemma LaterLines(lines: seq<string>)
    requires lines != []
    ensures (forall k :: 1 <= k < |lines| ==> WellFormed(lines[k])) <==>
            (forall k :: 0 <= k < |lines[1..]| ==> WellFormed(lines[1..][k]))
  {
    if forall k :: 1 <= k < |lines| ==> WellFormed(lines[k]) {
      forall k | 0 <= k < |lines[1..]| ensures WellFormed(lines[1..][k]) {
        assert lines[1..][k] == lines[k + 1];
      }
    }
    if forall k :: 0 <= k < |lines[1..]| ==> WellFormed(lines[1..][k]) {
      forall k | 1 <= k < |lines| ensures WellFormed(lines[k]) {
        assert lines[k] == lines[1..][k - 1];
      }
    }
  }

  /** The script: load, then run for at most `fuel` passes of the loop. */
  method Simulate(raw: seq<string>, fuel: nat)
    returns (res: Result<(seq<TraceEntry>, Outcome), LoadError>)
    ensures Load(raw).Err? ==> res == Err(Load(raw).error)
    ensures Load(raw).Ok? ==>
              var p := Load(raw).value;
              res == Ok(Run(p.prog, Machine(p.start, p.regs), fuel, 0))
  {
    var machine := Lines(raw);
    if machine == [] {
      return Err(EmptyProgram);
    }
    var config := ParseConfig(machine[0]);
    if config.Err? {
      return Err(config.error);
    }
    var instructions := BuildTable(machine[1..]);
    if instructions.Err? {
      return Err(instructions.error);
    }
    var trace, outcome := Execute(instructions.value, config.value.start, config.value.regs, fuel);
    return Ok((trace, outcome));
  }

  /** A start label with no instruction halts erroneously at once, with one trace entry. */
  lemma UndefinedStart(prog: Program, start: string, regs: seq<nat>, fuel: nat)
    requires start !in prog && fuel > 0
    ensures Run(prog, Machine(start, regs), fuel, 0) ==
            ([TraceEntry(0, start, regs)], ErroneousHalt(1, start, regs))
  {
  }

  /**
   * A label that increments a register and comes back to itself runs for
   * as long as it is allowed, counting up by one on each pass.
   */
  lemma {:induction false} CountUp(l: string, k: nat, fuel: nat, n: nat)
    ensures Run(map[l := Inc(0, l)], Machine(l, [k]), fuel, n) ==
            (seq(fuel, j requires 0 <= j < fuel => TraceEntry(n + j, l, [k + j])),
             OutOfFuel(n + fuel, l, [k + fuel]))
    decreases fuel
  {
    var prog := map[l := Inc(0, l)];
    if fuel > 0 {
      assert Step(prog, Machine(l, [k])) == Continue(Machine(l, [k + 1]));
      CountUp(l, k + 1, fuel - 1, n + 1);
      var rest := seq(fuel - 1, j requires 0 <= j < fuel - 1 => TraceEntry(n + 1 + j, l, [k + 1 + j]));
      assert [TraceEntry(n, l, [k])] + rest ==
             seq(fuel, j requires 0 <= j < fuel => TraceEntry(n + j, l, [k + j]));
    }
  }

  /** The first line of a configuration `5,1,2,3` gives start `5` and registers 1, 2, 3. */
  lemma ConfigExample()
    ensures ParseConfig("5,1,2,3") == Ok(Config("5", [1, 2, 3]))
  {
    var ds := ["1", "2", "3"];
    assert DecimalValue("1") == 1 && DecimalValue("2") == 2 && DecimalValue("3") == 3;
    assert Values(ds) == [1, 2, 3] by {
      assert ds[1..] == ["2", "3"] && ds[1..][1..] == ["3"] && ds[1..][1..][1..] == [];
    }
    var fields := ["5"] + ds;
    assert fields[1..] == ds && ds[1..] == ["2", "3"] && ds[1..][1..] == ["3"];
    assert Join(["3"], ',') == "3";
    assert Join(["2", "3"], ',') == "2,3";
    assert Join(ds, ',') == "1,2,3";
    assert Join(fields, ',') == "5,1,2,3";
    assert "" + "5,1,2,3" + "" == "5,1,2,3";
    ConfigOfShape("", "5", ds, "");
  }

  /**
   * A configuration line whose first field is not a number: the start is
   * the first run of digits, here `0`, and no register is given.
   */
  lemma ConfigLetterStart()
    ensures ParseConfig("a,0") == Ok(Config("0", []))
  {
    assert Join(["0"], ',') == "0";
    assert "a," + "0" + "" == "a,0";
    ConfigOfShape("a,", "0", [], "");
  }

  /** A line repeated rejects the table: its label is defined twice. */
  lemma RepeatedLine(line: string)
    requires WellFormed(line)
    ensures ParseTable([line, line]) == Err(DuplicateLabelError)
  {
    var lines := [line, line];
    assert lines[..1] == [line];
    assert LabelOf(lines[0]) == LabelOf(lines[1]);
    SplitCount(line, ':');
    FirstFailingLine(lines, 1);
  }

  /**
   * The program `0: dec(r0),1,2` and `2: halt` from start `0` with register
   * 0 at zero takes the zero branch and halts properly after two passes.
   */
  lemma EndToEndExample(fuel: nat)
    requires fuel >= 2
    ensures var prog := map["0" := Dec(0, "1", "2"), "2" := Halt];
            Run(prog, Machine("0", [0]), fuel, 0) ==
            ([TraceEntry(0, "0", [0]), TraceEntry(1, "2", [0])], ProperHalt(2, "2", [0]))
  {
    var prog := map["0" := Dec(0, "1", "2"), "2" := Halt];
    assert Step(prog, Machine("0", [0])) == Continue(Machine("2", [0]));
    assert Step(prog, Machine("2", [0])) == Stopped(true, Machine("2", [0]));
    assert Run(prog, Machine("2", [0]), fuel - 1, 1) == ([TraceEntry(1, "2", [0])], ProperHalt(2, "2", [0]));
    RunContinues(prog, Machine("0", [0]), Machine("2", [0]), fuel, 0);
    assert [TraceEntry(0, "0", [0])] + [TraceEntry(1, "2", [0])] == [TraceEntry(0, "0", [0]), TraceEntry(1, "2", [0])];
  }

  /** The instruction text of that program is read into the instructions it runs. */
  lemma EndToEndBodies()
    ensures ParseBody("dec(r0),1,2") == Ok(Dec(0, "1", "2"))
    ensures ParseBody("halt") == Ok(Halt)
  {
    assert DecimalValue("0") == 0;
    assert "dec(r" + "0" + ")," + "1" + "," + "2" == "dec(r0),1,2";
    DecParses("0", "1", "2");
    BodyDenotes("halt", Halt);
  }
}
