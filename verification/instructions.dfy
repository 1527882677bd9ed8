/**
 * The instruction lines: each is split on `:` into a label and a body, the
 * body is classified as `halt`, `inc(rN),L` or `dec(rN),L1,L2`, and the
 * instructions are collected into a table keyed by label.
 */
module Instructions {
  import opened Text
  import opened Wrappers
  import opened Syntax

  /** The operation field `name(r<digits>)`, split into its two parts. */
  datatype OpField = OpField(name: string, digits: string)

  /** Reads an operation field of the exact shape `name(r<digits>)`. */
  function ParseOpField(op: string): (r: Option<OpField>)
    ensures r.Some? ==> IsWord(r.value.name) && IsNumeral(r.value.digits)
    ensures r.Some? ==> op == r.value.name + "(r" + r.value.digits + ")"
  {
    var p := IndexOf(op, '(');
    if 0 < p && p + 3 < |op| && op[p + 1] == 'r' && op[|op| - 1] == ')'
       && IsWord(op[..p]) && IsNumeral(op[p + 2..|op| - 1])
    then
      var name, digits := op[..p], op[p + 2..|op| - 1];
      assert op == name + "(r" + digits + ")";
      Some(OpField(name, digits))
    else
      None
  }

  lemma WordHasNoParen(name: string)
    requires IsWord(name)
    ensures '(' !in name
  {
    assert forall i :: 0 <= i < |name| ==> name[i] != '(';
  }

  /** Every field of the shape `name(r<digits>)` is read back into its parts. */
  lemma OpFieldOfShape(name: string, digits: string)
    requires IsWord(name) && IsNumeral(digits)
    ensures ParseOpField(name + "(r" + digits + ")") == Some(OpField(name, digits))
  {
    var op := name + "(r" + digits + ")";
    WordHasNoParen(name);
    assert op == name + ("(r" + digits + ")");
    IndexOfPrefix(name, "(r" + digits + ")", '(');
    assert op[..|name|] == name;
    assert op[|name| + 2..|op| - 1] == digits;
  }

  /** The classification of an instruction body (the text after the colon). */
  function ParseBody(body: string): Result<Instr, LoadError>
  {
    var fields := Split(body, ',');
    if |fields| == 1 then
      if fields[0] == "halt" then Ok(Halt) else Err(UnknownOperationError)
    else
      match ParseOpField(fields[0])
      case None => Err(OperationFormatError)
      case Some(f) =>
        var args := fields[1..];
        assert AllDigits(f.digits);
        if f.name == "inc" then
          if |args| != 1 then Err(ArityError) else Ok(Inc(DecimalValue(f.digits), args[0]))
        else if f.name == "dec" then
          if |args| != 2 then Err(ArityError) else Ok(Dec(DecimalValue(f.digits), args[0], args[1]))
        else
          Err(UnknownOperationError)
  }

  /** `ins` is written as `b`: the textual forms the loader accepts. */
  ghost predicate Denotes(b: string, ins: Instr)
  {
    match ins
    case Halt => b == "halt"
    case Inc(r, next) =>
      ',' !in next &&
      exists ds :: IsNumeral(ds) && DecimalValue(ds) == r && b == "inc(r" + ds + ")," + next
    case Dec(r, nz, z) =>
      ',' !in nz && ',' !in z &&
      exists ds :: IsNumeral(ds) && DecimalValue(ds) == r && b == "dec(r" + ds + ")," + nz + "," + z
  }

  lemma NoCommaInOp(name: string, ds: string)
    requires name == "inc" || name == "dec"
    requires IsNumeral(ds)
    ensures ',' !in name + "(r" + ds + ")"
  {
    NoCommaInDigits(ds);
    var op := name + "(r" + ds + ")";
    assert forall i :: 0 <= i < |op| ==> op[i] != ',' by {
      forall i | 0 <= i < |op| ensures op[i] != ',' {
        if |name| + 2 <= i < |op| - 1 { assert op[i] == ds[i - |name| - 2]; }
      }
    }
  }

  lemma SplitTwo(a: string, b: string)
    requires ',' !in a && ',' !in b
    ensures Split(a + "," + b, ',') == [a, b]
  {
    assert Join([a, b], ',') == a + "," + b;
    SplitJoin([a, b], ',');
  }

  lemma SplitThree(a: string, b: string, c: string)
    requires ',' !in a && ',' !in b && ',' !in c
    ensures Split(a + "," + b + "," + c, ',') == [a, b, c]
  {
    assert [a, b, c][1..] == [b, c];
    assert Join([b, c], ',') == b + "," + c;
    assert Join([a, b, c], ',') == a + "," + b + "," + c;
    SplitJoin([a, b, c], ',');
  }

  /** A body is accepted exactly when it is one of the three textual forms. */
  lemma BodyDenotes(b: string, ins: Instr)
    ensures ParseBody(b) == Ok(ins) <==> Denotes(b, ins)
  {
    if ParseBody(b) == Ok(ins) { ParsedDenotes(b); }
    if Denotes(b, ins) { DenotedParses(b, ins); }
  }

  lemma ParsedDenotes(b: string)
    requires ParseBody(b).Ok?
    ensures Denotes(b, ParseBody(b).value)
  {
    var fields := Split(b, ',');
    JoinSplit(b, ',');
    if |fields| == 1 {
      assert b == fields[0];
    } else {
      var f := ParseOpField(fields[0]).value;
      assert AllDigits(f.digits);
      if f.name == "inc" {
        assert fields[1] in fields;
        IncDenotes(b, fields, f);
      } else {
        assert fields[1] in fields && fields[2] in fields;
        DecDenotes(b, fields, f);
      }
    }
  }

  lemma IncDenotes(b: string, fields: seq<string>, f: OpField)
    requires |fields| == 2 && ',' !in fields[1]
    requires Join(fields, ',') == b
    requires ParseOpField(fields[0]) == Some(f) && f.name == "inc"
    ensures AllDigits(f.digits) && Denotes(b, Inc(DecimalValue(f.digits), fields[1]))
  {
    assert fields == [fields[0]] + [fields[1]];
    JoinCons(fields[0], [fields[1]], ',');
    IncText(f.digits, fields[1]);
  }

  lemma DecDenotes(b: string, fields: seq<string>, f: OpField)
    requires |fields| == 3 && ',' !in fields[1] && ',' !in fields[2]
    requires Join(fields, ',') == b
    requires ParseOpField(fields[0]) == Some(f) && f.name == "dec"
    ensures AllDigits(f.digits) && Denotes(b, Dec(DecimalValue(f.digits), fields[1], fields[2]))
  {
    assert fields == [fields[0]] + [fields[1], fields[2]];
    JoinCons(fields[0], [fields[1], fields[2]], ',');
    assert [fields[1], fields[2]] == [fields[1]] + [fields[2]];
    JoinCons(fields[1], [fields[2]], ',');
    DecText(f.digits, fields[1], fields[2]);
  }

  /** The text of an `inc` body, as its operation field and its target. */
  lemma IncText(ds: string, next: string)
    ensures "inc(r" + ds + ")," + next == ("inc" + "(r" + ds + ")") + [','] + next
  {
  }

  /** The text of a `dec` body, as its operation field and its two targets. */
  lemma DecText(ds: string, nz: string, z: string)
    ensures "dec(r" + ds + ")," + nz + "," + z == ("dec" + "(r" + ds + ")") + [','] + (nz + [','] + z)
  {
  }

  lemma DenotedParses(b: string, ins: Instr)
    requires Denotes(b, ins)
    ensures ParseBody(b) == Ok(ins)
  {
    match ins
    case Halt =>
      assert Split(b, ',') == ["halt"];
    case Inc(r, next) =>
      var ds :| IsNumeral(ds) && DecimalValue(ds) == r && b == "inc(r" + ds + ")," + next;
      IncParses(ds, next);
    case Dec(r, nz, z) =>
      var ds :| IsNumeral(ds) && DecimalValue(ds) == r && b == "dec(r" + ds + ")," + nz + "," + z;
      DecParses(ds, nz, z);
  }

  lemma IncParses(ds: string, next: string)
    requires IsNumeral(ds) && ',' !in next
    ensures ParseBody("inc(r" + ds + ")," + next) == Ok(Inc(DecimalValue(ds), next))
  {
    var b := "inc(r" + ds + ")," + next;
    var op := "inc" + "(r" + ds + ")";
    NoCommaInOp("inc", ds);
    assert b == op + "," + next;
    SplitTwo(op, next);
    OpFieldOfShape("inc", ds);
    assert Split(b, ',')[1..] == [next];
  }

  lemma DecParses(ds: string, nz: string, z: string)
    requires IsNumeral(ds) && ',' !in nz && ',' !in z
    ensures ParseBody("dec(r" + ds + ")," + nz + "," + z) == Ok(Dec(DecimalValue(ds), nz, z))
  {
    var b := "dec(r" + ds + ")," + nz + "," + z;
    var op := "dec" + "(r" + ds + ")";
    NoCommaInOp("dec", ds);
    assert b == op + "," + nz + "," + z;
    SplitThree(op, nz, z);
    OpFieldOfShape("dec", ds);
    assert Split(b, ',')[1..] == [nz, z];
  }

  /** The text before the first comma of a body: its operation field. */
  function FirstField(b: string): string
  {
    b[..IndexOf(b, ',')]
  }

  /** Which error a rejected body gives, by the first check it fails. */
  lemma {:induction false} BodyErrors(b: string)
    ensures ',' !in b && b != "halt" ==> ParseBody(b) == Err(UnknownOperationError)
    ensures ',' in b && ParseOpField(FirstField(b)).None? ==> ParseBody(b) == Err(OperationFormatError)
    ensures ',' in b && ParseOpField(FirstField(b)).Some? ==>
              var name := ParseOpField(FirstField(b)).value.name;
              && (name != "inc" && name != "dec" ==> ParseBody(b) == Err(UnknownOperationError))
              && (name == "inc" && Count(b, ',') != 1 ==> ParseBody(b) == Err(ArityError))
              && (name == "dec" && Count(b, ',') != 2 ==> ParseBody(b) == Err(ArityError))
  {
    var fields := Split(b, ',');
    SplitCount(b, ',');
    if ',' !in b {
      assert IndexOf(b, ',') == |b|;
      assert fields == [b];
    } else {
      var k := IndexOf(b, ',');
      assert k < |b|;
      assert fields[0] == FirstField(b);
    }
  }

  /** The canonical text of an instruction body. */
  function ShowBody(ins: Instr): string
  {
    match ins
    case Halt => "halt"
    case Inc(r, next) => "inc(r" + NatToDigits(r) + ")," + next
    case Dec(r, nz, z) => "dec(r" + NatToDigits(r) + ")," + nz + "," + z
  }

  /** Every instruction whose targets have no comma is read back from its text. */
  lemma ShowBodyParses(ins: Instr)
    requires ins.Inc? ==> ',' !in ins.next
    requires ins.Dec? ==> ',' !in ins.nz && ',' !in ins.z
    ensures ParseBody(ShowBody(ins)) == Ok(ins)
  {
    match ins
    case Halt =>
      assert Split("halt", ',') == ["halt"];
    case Inc(r, next) =>
      IncParses(NatToDigits(r), next);
      DecimalValueOfDigits(r);
    case Dec(r, nz, z) =>
      DecParses(NatToDigits(r), nz, z);
      DecimalValueOfDigits(r);
  }
}
