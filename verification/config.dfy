/**
 * The configuration line: the first match of `\d+(,\d+)*` in it, found by
 * a scan. The first field is the start label, kept as text; the others are
 * the initial register values.
 */
module ConfigLine {
  import opened Text
  import opened Wrappers
  import opened Syntax

  datatype Config = Config(start: string, regs: seq<nat>)

  /** The position of the first digit of `s`, or `|s|` when it has none. */
  function FirstDigit(s: string): (k: nat)
    ensures k <= |s|
    ensures forall i :: 0 <= i < k ==> !IsDigit(s[i])
    ensures k < |s| ==> IsDigit(s[k])
  {
    if s == [] then 0 else if IsDigit(s[0]) then 0 else 1 + FirstDigit(s[1..])
  }

  /** The end of the maximal run of digits that starts at `i`. */
  function DigitsEnd(s: string, i: nat): (j: nat)
    requires i <= |s|
    ensures i <= j <= |s|
    ensures forall k :: i <= k < j ==> IsDigit(s[k])
    ensures j < |s| ==> !IsDigit(s[j])
    decreases |s| - i
  {
    if i < |s| && IsDigit(s[i]) then DigitsEnd(s, i + 1) else i
  }

  /** Whether the match can be extended by a further `,\d+` at `j`. */
  predicate Continues(s: string, j: nat)
  {
    j + 1 < |s| && s[j] == ',' && IsDigit(s[j + 1])
  }

  /**
   * The end of the greedy match of `\d+(,\d+)*` that starts at the digit
   * `s[i]`: it stops neither inside a run of digits nor before a `,\d`.
   */
  function MatchEnd(s: string, i: nat): (e: nat)
    requires i < |s| && IsDigit(s[i])
    ensures i < e <= |s|
    ensures e < |s| ==> !IsDigit(s[e])
    ensures !Continues(s, e)
    decreases |s| - i
  {
    var j := DigitsEnd(s, i);
    if Continues(s, j) then MatchEnd(s, j + 1) else j
  }

  /** Every comma field of the match is a numeral: `int` can read it. */
  lemma {:induction false} MatchFields(s: string, i: nat)
    requires i < |s| && IsDigit(s[i])
    ensures forall f :: f in Split(s[i..MatchEnd(s, i)], ',') ==> IsNumeral(f)
    decreases |s| - i
  {
    var j := DigitsEnd(s, i);
    var f := s[i..j];
    assert IsNumeral(f) by {
      forall k | 0 <= k < |f| ensures IsDigit(f[k]) { assert f[k] == s[i + k]; }
    }
    NoCommaInDigits(f);
    if Continues(s, j) {
      var e := MatchEnd(s, j + 1);
      assert e == MatchEnd(s, i);
      MatchFields(s, j + 1);
      var g := s[j + 1..e];
      SliceAround(s, i, j, e);
      SplitAfterPiece(f, g, ',');
      forall h | h in Split(s[i..e], ',') ensures IsNumeral(h) {
        if h != f { assert h in Split(g, ','); }
      }
    } else {
      assert j == MatchEnd(s, i);
      SplitWhole(f, ',');
    }
  }

  /** The configuration the first significant line gives, or `ConfigFormatError`. */
  function ParseConfig(line: string): (r: Result<Config, LoadError>)
    ensures r.Err? <==> forall i :: 0 <= i < |line| ==> !IsDigit(line[i])
    ensures r.Err? ==> r.error == ConfigFormatError
    ensures r.Ok? ==> IsNumeral(r.value.start)
  {
    var p := FirstDigit(line);
    if p == |line| then Err(ConfigFormatError)
    else
      var fields := Split(line[p..MatchEnd(line, p)], ',');
      MatchFields(line, p);
      assert fields[0] in fields;
      Ok(Config(fields[0], Values(fields[1..])))
  }

  /** The values `int` reads from a list of numerals. */
  function Values(ds: seq<string>): (vs: seq<nat>)
    requires forall f :: f in ds ==> IsNumeral(f)
    ensures |vs| == |ds|
  {
    if ds == [] then [] else
      assert ds[0] in ds;
      assert IsNumeral(ds[0]);
      [DecimalValue(ds[0])] + Values(ds[1..])
  }

  lemma {:induction false} ValuesAt(ds: seq<string>, k: nat)
    requires forall f :: f in ds ==> IsNumeral(f)
    requires k < |ds|
    ensures ds[k] in ds && AllDigits(ds[k]) && Values(ds)[k] == DecimalValue(ds[k])
  {
    if k > 0 { ValuesAt(ds[1..], k - 1); }
  }

  lemma {:induction false} DigitsEndAt(s: string, i: nat, j: nat)
    requires i <= j <= |s|
    requires forall k :: i <= k < j ==> IsDigit(s[k])
    requires j < |s| ==> !IsDigit(s[j])
    ensures DigitsEnd(s, i) == j
    decreases j - i
  {
    if i < j { DigitsEndAt(s, i + 1, j); }
  }

  lemma DigitsAt(s: string, i: nat, f: string)
    requires i + |f| <= |s| && s[i..i + |f|] == f && AllDigits(f)
    ensures forall k :: i <= k < i + |f| ==> IsDigit(s[k])
  {
    forall k | i <= k < i + |f| ensures IsDigit(s[k]) {
      assert s[k] == s[i..i + |f|][k - i];
    }
  }

  /**
   * `fields` sit in `s` from `i`, separated by single commas, and the last
   * one ends at `e`.
   */
  ghost predicate LaidOut(s: string, i: nat, fields: seq<string>, e: nat)
    decreases |fields|
  {
    && |fields| >= 1
    && i + |fields[0]| <= |s| && s[i..i + |fields[0]|] == fields[0]
    && if |fields| == 1 then e == i + |fields[0]|
       else i + |fields[0]| < |s| && s[i + |fields[0]|] == ','
            && LaidOut(s, i + |fields[0]| + 1, fields[1..], e)
  }

  lemma {:induction false} JoinLaidOut(s: string, i: nat, fields: seq<string>)
    requires |fields| >= 1
    requires i + |Join(fields, ',')| <= |s|
    requires s[i..i + |Join(fields, ',')|] == Join(fields, ',')
    ensures LaidOut(s, i, fields, i + |Join(fields, ',')|)
    decreases |fields|
  {
    var f := fields[0];
    if |fields| > 1 {
      var tail := fields[1..];
      var rest := Join(tail, ',');
      assert fields == [f] + tail;
      JoinCons(f, tail, ',');
      SliceParts(s, i, f, ',', rest);
      JoinLaidOut(s, i + |f| + 1, tail);
    }
  }

  /** A match laid out as numeral `fields` at `i` ends where they end. */
  lemma {:induction false} MatchEndLaidOut(s: string, i: nat, fields: seq<string>, e: nat)
    requires LaidOut(s, i, fields, e)
    requires forall k :: 0 <= k < |fields| ==> IsNumeral(fields[k])
    requires (e < |s| ==> !IsDigit(s[e])) && !Continues(s, e)
    ensures i < |s| && IsDigit(s[i])
    ensures MatchEnd(s, i) == e
    decreases |fields|
  {
    var f := fields[0];
    var j := i + |f|;
    assert IsNumeral(f);
    DigitsAt(s, i, f);
    if |fields| > 1 {
      var tail := fields[1..];
      forall k | 0 <= k < |tail| ensures IsNumeral(tail[k]) {
        assert tail[k] == fields[k + 1];
      }
      MatchEndLaidOut(s, j + 1, tail, e);
      DigitsEndAt(s, i, j);
      assert Continues(s, j);
    } else {
      DigitsEndAt(s, i, j);
    }
  }

  lemma FirstDigitOfShape(pre: string, rest: string)
    requires forall i :: 0 <= i < |pre| ==> !IsDigit(pre[i])
    requires |rest| > 0 && IsDigit(rest[0])
    ensures FirstDigit(pre + rest) == |pre|
  {
    var s := pre + rest;
    assert IsDigit(s[|pre|]);
    assert forall i :: 0 <= i < |pre| ==> s[i] == pre[i];
  }

  /**
   * The configuration line read back from its shape: text without digits,
   * then the start label and the register values joined by commas, then
   * text that does not continue the match. The start label is the exact
   * text of the first run of digits, and the registers are the values of
   * the following comma fields, in order.
   */
  lemma ConfigOfShape(pre: string, start: string, ds: seq<string>, post: string)
    requires forall i :: 0 <= i < |pre| ==> !IsDigit(pre[i])
    requires IsNumeral(start)
    requires forall f :: f in ds ==> IsNumeral(f)
    requires !(|post| > 0 && IsDigit(post[0]))
    requires !(|post| > 1 && post[0] == ',' && IsDigit(post[1]))
    ensures ParseConfig(pre + Join([start] + ds, ',') + post) == Ok(Config(start, Values(ds)))
  {
    var fields := [start] + ds;
    var m := Join(fields, ',');
    var s := pre + m + post;
    var p, e := |pre|, |pre| + |m|;
    assert forall k :: 0 <= k < |fields| ==> IsNumeral(fields[k]) by {
      forall k | 0 <= k < |fields| ensures IsNumeral(fields[k]) {
        if k > 0 { assert fields[k] == ds[k - 1] && ds[k - 1] in ds; }
      }
    }
    assert m[0] == start[0] by {
      if |ds| > 0 { assert m == start + [','] + Join(fields[1..], ','); }
    }
    assert s == pre + (m + post);
    FirstDigitOfShape(pre, m + post);
    assert s[p..e] == m;
    assert e < |s| ==> s[e] == post[0];
    assert e + 1 < |s| ==> s[e + 1] == post[1];
    JoinLaidOut(s, p, fields);
    MatchEndLaidOut(s, p, fields, e);
    forall k | 0 <= k < |fields| ensures ',' !in fields[k] {
      NoCommaInDigits(fields[k]);
    }
    SplitJoin(fields, ',');
    assert fields[1..] == ds;
  }
}
