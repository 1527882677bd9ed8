/**
 * The instruction table: every significant line after the configuration
 * line is split on `:` into a label and a body, labels must be new, and
 * the first line that fails stops the whole load.
 */
module Table {
  import opened Text
  import opened Wrappers
  import opened Syntax
  import opened Instructions

  /** The text before the first colon. */
  function LabelOf(line: string): string
  {
    Split(line, ':')[0]
  }

  function BodyOf(line: string): string
    requires |Split(line, ':')| == 2
  {
    Split(line, ':')[1]
  }

  /** The line is a label and a body separated by one colon, and the body is accepted. */
  predicate WellFormed(line: string)
  {
    |Split(line, ':')| == 2 && ParseBody(BodyOf(line)).Ok?
  }

  predicate DistinctLabels(lines: seq<string>)
  {
    forall i, j :: 0 <= i < j < |lines| ==> LabelOf(lines[i]) != LabelOf(lines[j])
  }

  function Labels(lines: seq<string>): set<string>
  {
    set k | 0 <= k < |lines| :: LabelOf(lines[k])
  }

  /** One pass of the loop: the checks on one line, in the order the loader makes them. */
  function AddLine(table: Program, line: string): Result<Program, LoadError>
  {
    var parts := Split(line, ':');
    if |parts| != 2 then Err(InstructionFormatError)
    else if parts[0] in table then Err(DuplicateLabelError)
    else
      match ParseBody(parts[1])
      case Err(e) => Err(e)
      case Ok(ins) => Ok(table[parts[0] := ins])
  }

  /** The table the instruction lines give, or the error of the first line that fails. */
  function ParseTable(lines: seq<string>): Result<Program, LoadError>
  {
    if lines == [] then Ok(map[])
    else
      match ParseTable(lines[..|lines| - 1])
      case Err(e) => Err(e)
      case Ok(t) => AddLine(t, lines[|lines| - 1])
  }

  /**
   * The load of the table succeeds exactly when every line is well formed
   * and no label repeats; the table then has one entry per line, keyed by
   * its label and holding the instruction of its body.
   */
  lemma {:induction false} TableOk(lines: seq<string>)
    ensures ParseTable(lines).Ok? <==>
              (forall k :: 0 <= k < |lines| ==> WellFormed(lines[k])) && DistinctLabels(lines)
    ensures ParseTable(lines).Ok? ==>
              var t := ParseTable(lines).value;
              && t.Keys == Labels(lines)
              && |t| == |lines|
              && forall k :: 0 <= k < |lines| ==> t[LabelOf(lines[k])] == ParseBody(BodyOf(lines[k])).value
  {
    if lines != [] {
      var n := |lines| - 1;
      var init, last := lines[..n], lines[n];
      TableOk(init);
      SnocFacts(lines);
      if ParseTable(init).Ok? {
        var t := ParseTable(init).value;
        AddLineOk(t, last);
        if AddLine(t, last).Ok? {
          HoldsOfTable(t, init);
          var t' := AddLine(t, last).value;
          Added(t, LabelOf(last), ParseBody(BodyOf(last)).value);
          Contents(lines, t, t');
        }
      }
    }
  }

  /** Every line is well formed and its label holds the instruction of its body. */
  ghost predicate Holds(t: Program, lines: seq<string>)
  {
    forall k :: 0 <= k < |lines| ==>
      WellFormed(lines[k]) && LabelOf(lines[k]) in t && t[LabelOf(lines[k])] == ParseBody(BodyOf(lines[k])).value
  }

  lemma HoldsOfTable(t: Program, lines: seq<string>)
    requires t.Keys == Labels(lines)
    requires forall k :: 0 <= k < |lines| ==>
               WellFormed(lines[k]) && t[LabelOf(lines[k])] == ParseBody(BodyOf(lines[k])).value
    ensures Holds(t, lines)
  {
  }

  lemma Added(t: Program, l: string, ins: Instr)
    requires l !in t
    ensures t[l := ins].Keys == t.Keys + {l} && |t[l := ins]| == |t| + 1
  {
    assert t[l := ins].Keys == t.Keys + {l};
  }

  lemma Contents(lines: seq<string>, t: Program, t': Program)
    requires |lines| > 0
    requires Holds(t, lines[..|lines| - 1])
    requires WellFormed(lines[|lines| - 1]) && LabelOf(lines[|lines| - 1]) !in t
    requires t' == t[LabelOf(lines[|lines| - 1]) := ParseBody(BodyOf(lines[|lines| - 1])).value]
    ensures Holds(t', lines)
  {
    var n := |lines| - 1;
    var init := lines[..n];
    forall k | 0 <= k < |lines|
      ensures WellFormed(lines[k]) && LabelOf(lines[k]) in t' && t'[LabelOf(lines[k])] == ParseBody(BodyOf(lines[k])).value
    {
      if k < n {
        assert lines[k] == init[k];
      }
    }
  }

  /** How the conditions of `TableOk` decompose at the last line. */
  lemma SnocFacts(lines: seq<string>)
    requires |lines| > 0
    ensures var n := |lines| - 1;
            var init, last := lines[..n], lines[n];
            && Labels(lines) == Labels(init) + {LabelOf(last)}
            && (DistinctLabels(lines) <==> DistinctLabels(init) && LabelOf(last) !in Labels(init))
            && ((forall k :: 0 <= k < |lines| ==> WellFormed(lines[k])) <==>
                (forall k :: 0 <= k < n ==> WellFormed(init[k])) && WellFormed(last))
  {
    var n := |lines| - 1;
    var init, last := lines[..n], lines[n];
    assert forall k :: 0 <= k < n ==> lines[k] == init[k];
    assert Labels(lines) == Labels(init) + {LabelOf(last)} by {
      forall l | l in Labels(lines) ensures l in Labels(init) + {LabelOf(last)} {
        var k :| 0 <= k < |lines| && LabelOf(lines[k]) == l;
        if k < n { assert LabelOf(init[k]) == l; }
      }
    }
    if DistinctLabels(init) && LabelOf(last) !in Labels(init) {
      forall i, j | 0 <= i < j < |lines| ensures LabelOf(lines[i]) != LabelOf(lines[j]) {
        if j == n { assert LabelOf(init[i]) in Labels(init); }
        else { assert LabelOf(init[i]) != LabelOf(init[j]); }
      }
    }
    if DistinctLabels(lines) {
      assert DistinctLabels(init) by {
        forall i, j | 0 <= i < j < n ensures LabelOf(init[i]) != LabelOf(init[j]) {
          assert LabelOf(lines[i]) != LabelOf(lines[j]);
        }
      }
      forall l | l in Labels(init) ensures l != LabelOf(last) {
        var k :| 0 <= k < n && LabelOf(init[k]) == l;
        assert LabelOf(lines[k]) != LabelOf(lines[n]);
      }
    }
  }

  /** One line is added exactly when it is well formed and its label is new. */
  lemma AddLineOk(t: Program, line: string)
    ensures AddLine(t, line).Ok? <==> WellFormed(line) && LabelOf(line) !in t
    ensures AddLine(t, line).Ok? ==> AddLine(t, line).value == t[LabelOf(line) := ParseBody(BodyOf(line)).value]
  {
  }

  /** Once a prefix of the lines fails, the whole load fails with the same error. */
  lemma {:induction false} ErrorPersists(lines: seq<string>, k: nat)
    requires k <= |lines|
    requires ParseTable(lines[..k]).Err?
    ensures ParseTable(lines) == ParseTable(lines[..k])
    decreases |lines| - k
  {
    if k < |lines| {
      var init := lines[..|lines| - 1];
      assert init[..k] == lines[..k];
      ErrorPersists(init, k);
    } else {
      assert lines[..k] == lines;
    }
  }

  /**
   * The error of the first line that fails: a colon count other than one,
   * then a label already defined, then the error of its body.
   */
  lemma FirstFailingLine(lines: seq<string>, k: nat)
    requires k < |lines|
    requires forall i :: 0 <= i < k ==> WellFormed(lines[i])
    requires DistinctLabels(lines[..k])
    ensures Count(lines[k], ':') != 1 ==> ParseTable(lines) == Err(InstructionFormatError)
    ensures Count(lines[k], ':') == 1 && (exists i :: 0 <= i < k && LabelOf(lines[i]) == LabelOf(lines[k])) ==>
              ParseTable(lines) == Err(DuplicateLabelError)
    ensures Count(lines[k], ':') == 1 && (forall i :: 0 <= i < k ==> LabelOf(lines[i]) != LabelOf(lines[k])) ==>
              var b := Split(lines[k], ':')[1];
              ParseBody(b).Err? ==> ParseTable(lines) == Err(ParseBody(b).error)
  {
    var pre := lines[..k];
    var line := lines[k];
    PrefixOk(lines, k);
    var t := ParseTable(pre).value;
    AddLineErrors(t, line);
    if AddLine(t, line).Err? {
      SnocTable(lines, k);
      ErrorPersists(lines, k + 1);
    }
  }

  /** The table of the first `k + 1` lines adds line `k` to the table of the first `k`. */
  lemma SnocTable(lines: seq<string>, k: nat)
    requires k < |lines| && ParseTable(lines[..k]).Ok?
    ensures ParseTable(lines[..k + 1]) == AddLine(ParseTable(lines[..k]).value, lines[k])
  {
    assert lines[..k + 1][..k] == lines[..k] && lines[..k + 1][k] == lines[k];
  }

  lemma PrefixOk(lines: seq<string>, k: nat)
    requires k < |lines|
    requires forall i :: 0 <= i < k ==> WellFormed(lines[i])
    requires DistinctLabels(lines[..k])
    ensures ParseTable(lines[..k]).Ok?
    ensures LabelOf(lines[k]) in ParseTable(lines[..k]).value <==>
              exists i :: 0 <= i < k && LabelOf(lines[i]) == LabelOf(lines[k])
  {
    var pre := lines[..k];
    assert forall i :: 0 <= i < k ==> pre[i] == lines[i];
    TableOk(pre);
  }

  lemma AddLineErrors(t: Program, line: string)
    ensures Count(line, ':') != 1 ==> AddLine(t, line) == Err(InstructionFormatError)
    ensures Count(line, ':') == 1 && LabelOf(line) in t ==> AddLine(t, line) == Err(DuplicateLabelError)
    ensures Count(line, ':') == 1 && LabelOf(line) !in t ==>
              var b := Split(line, ':')[1];
              ParseBody(b).Err? ==> AddLine(t, line) == Err(ParseBody(b).error)
  {
    SplitCount(line, ':');
  }

  /** The loop of the loader that fills the table one line at a time. */
  method BuildTable(lines: seq<string>) returns (res: Result<Program, LoadError>)
    ensures res == ParseTable(lines)
  {
    var instructions: Program := map[];
    for k := 0 to |lines|
      invariant ParseTable(lines[..k]) == Ok(instructions)
    {
      var line := lines[k];
      assert lines[..k + 1][..k] == lines[..k];
      var lineList := Split(line, ':');
      if |lineList| != 2 {
        ErrorPersists(lines, k + 1);
        return Err(InstructionFormatError);
      }
      var lab, instructionString := lineList[0], lineList[1];
      if lab in instructions {
        ErrorPersists(lines, k + 1);
        return Err(DuplicateLabelError);
      }
      var instruction := ParseBody(instructionString);
      if instruction.Err? {
        ErrorPersists(lines, k + 1);
        return Err(instruction.error);
      }
      instructions := instructions[lab := instruction.value];
    }
    assert lines[..|lines|] == lines;
    return Ok(instructions);
  }
}
