/**
 * The line filter of the script: the text is lower-cased, every space is
 * removed, and the lines that are then empty or start with `#` are dropped.
 */
module Preprocess {
  import opened Text

  function LowerChar(c: char): (d: char)
    ensures !IsUpper(d)
    ensures IsUpper(c) ==> d as int == c as int + 32
    ensures !IsUpper(c) ==> d == c
  {
    if IsUpper(c) then (c as int + 32) as char else c
  }

  /** `str.lower` on ASCII letters. */
  function Lower(s: string): (r: string)
    ensures |r| == |s|
    ensures forall i :: 0 <= i < |r| ==> !IsUpper(r[i]) && r[i] == LowerChar(s[i])
  {
    seq(|s|, i requires 0 <= i < |s| => LowerChar(s[i]))
  }

  /** `s.replace(c, "")`: every other character is kept, in order. */
  function Without(s: string, c: char): (r: string)
    ensures c !in r
    ensures forall x :: x != c ==> multiset(r)[x] == multiset(s)[x]
    ensures forall i :: 0 <= i < |r| ==> r[i] in s
  {
    if s == [] then []
    else
      var rest := Without(s[1..], c);
      assert s == [s[0]] + s[1..];
      if s[0] == c then rest else [s[0]] + rest
  }

  function Normalize(line: string): (r: string)
    ensures ' ' !in r
    ensures forall i :: 0 <= i < |r| ==> !IsUpper(r[i])
  {
    var low := Lower(line);
    var r := Without(low, ' ');
    assert forall i :: 0 <= i < |r| ==> r[i] in low;
    r
  }

  /** Removal works character by character, so the kept characters stay in order. */
  lemma {:induction false} WithoutAppend(a: string, b: string, c: char)
    ensures Without(a + b, c) == Without(a, c) + Without(b, c)
  {
    if a == [] {
      assert a + b == b;
    } else {
      assert (a + b)[0] == a[0] && (a + b)[1..] == a[1..] + b;
      WithoutAppend(a[1..], b, c);
    }
  }

  /** A single character is dropped exactly when it is the one removed. */
  lemma WithoutOne(x: char, c: char)
    ensures Without([x], c) == if x == c then [] else [x]
  {
    assert [x][1..] == [];
  }

  /** Lower-casing and removing spaces work character by character. */
  lemma NormalizeAppend(a: string, b: string)
    ensures Normalize(a + b) == Normalize(a) + Normalize(b)
  {
    assert Lower(a + b) == Lower(a) + Lower(b);
    WithoutAppend(Lower(a), Lower(b), ' ');
  }

  /**
   * One character normalizes to its lower-case form, or to nothing when it
   * is a space; with `NormalizeAppend` this fixes `Normalize` on every line.
   */
  lemma NormalizeOne(x: char)
    ensures Normalize([x]) == if x == ' ' then [] else [LowerChar(x)]
  {
    assert Lower([x]) == [LowerChar(x)];
    WithoutOne(LowerChar(x), ' ');
  }

  /** The condition `line and line[0] != "#"`. */
  predicate Kept(line: string) { line != [] && line[0] != '#' }

  /** The significant lines of a program, normalized, in their order. */
  function Lines(raw: seq<string>): (r: seq<string>)
    ensures |r| <= |raw|
    ensures forall k :: 0 <= k < |r| ==>
              Kept(r[k]) && ' ' !in r[k] && forall i :: 0 <= i < |r[k]| ==> !IsUpper(r[k][i])
  {
    if raw == [] then []
    else
      var line := Normalize(raw[0]);
      (if Kept(line) then [line] else []) + Lines(raw[1..])
  }

  /** Filtering works line by line, so the order of the lines is kept. */
  lemma {:induction false} LinesAppend(a: seq<string>, b: seq<string>)
    ensures Lines(a + b) == Lines(a) + Lines(b)
  {
    if a == [] {
      assert a + b == b;
    } else {
      assert (a + b)[1..] == a[1..] + b;
      LinesAppend(a[1..], b);
    }
  }

  /** A line survives exactly when some raw line normalizes to it and it is kept. */
  lemma {:induction false} LinesMembership(raw: seq<string>, x: string)
    ensures x in Lines(raw) <==> Kept(x) && exists l :: l in raw && Normalize(l) == x
  {
    if raw != [] {
      LinesMembership(raw[1..], x);
      assert forall l :: l in raw <==> l == raw[0] || l in raw[1..];
    }
  }
}
