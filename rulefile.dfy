/** The rules file handed to the RXP rule compiler: a header line, then for
    every instance a `subset_id = <n>` line followed by one
    `<ruleid>, <escaped text>` line per pattern, in registration order. Each
    line is terminated by a line break when written; the model keeps the lines. */
module RuleFile {

  import opened Wrappers
  import opened Decimal
  import opened PatternStore
  import opened Rxp

  const Header: string := "# TICS subsets file for Snort-3.0"

  /** The line opening the block of subset `n`. */
  function SubsetLine(n: nat): string
  {
    "subset_id = " + Digits(n)
  }

  /** The line of one pattern: its rule id, a comma, a space and its text. */
  function RuleLine(p: PatternView): string
  {
    Digits(p.ruleid) + ", " + p.pat
  }

  /** The lines of a store's patterns, in order. */
  function RuleLines(ps: seq<PatternView>): (r: seq<string>)
    ensures |r| == |ps|
    ensures forall i :: 0 <= i < |ps| ==> r[i] == RuleLine(ps[i])
  {
    if |ps| == 0 then [] else RuleLines(ps[..|ps| - 1]) + [RuleLine(ps[|ps| - 1])]
  }

  /** The block of subset `n`: its id line, then its rule lines. */
  function SubsetBlock(n: nat, ps: seq<PatternView>): (r: seq<string>)
    ensures |r| == 1 + |ps| && r[0] == SubsetLine(n)
    ensures forall i :: 0 <= i < |ps| ==> r[1 + i] == RuleLine(ps[i])
  {
    [SubsetLine(n)] + RuleLines(ps)
  }

  /** The blocks of all instances; the instance at position `k` is subset
      `k + 1`. */
  function Blocks(stores: seq<seq<PatternView>>): seq<string>
  {
    if |stores| == 0 then []
    else Blocks(stores[..|stores| - 1]) + SubsetBlock(|stores|, stores[|stores| - 1])
  }

  /** The whole file, given the instances' stores in instance order. */
  function RuleFileLines(stores: seq<seq<PatternView>>): seq<string>
  {
    [Header] + Blocks(stores)
  }

  /** The inner loop of `write_rule_file`: the subset line of subset `n`, then
      one line per pattern. */
  method WriteSubset(n: nat, pats: seq<PatternView>) returns (block: seq<string>)
    ensures block == SubsetBlock(n, pats)
  {
    block := [SubsetLine(n)];
    var rule := 0;
    while rule < |pats|
      invariant 0 <= rule <= |pats|
      invariant block == [SubsetLine(n)] + RuleLines(pats[..rule])
    {
      assert pats[..rule + 1][..rule] == pats[..rule];
      block := block + [RuleLine(pats[rule])];
      rule := rule + 1;
    }
    assert pats[..rule] == pats;
  }

  /** `write_rule_file`: the header, then per instance its subset line and
      its rule lines; it always reports success. */
  method WriteRuleFile(reg: Registry) returns (r: int, lines: seq<string>)
    ensures r == 0
    ensures lines == RuleFileLines(reg.Stores())
  {
    ghost var stores := reg.Stores();
    lines := [Header];
    var subset := 0;
    while subset < |reg.instances|
      invariant 0 <= subset <= |reg.instances|
      invariant lines == RuleFileLines(stores[..subset])
    {
      var pats := reg.instances[subset].pats;
      assert pats == stores[subset];
      var block := WriteSubset(subset + 1, pats);
      BlocksStep(stores, subset);
      lines := lines + block;
      subset := subset + 1;
    }
    assert stores[..subset] == stores;
    r := 0;
  }

  /** One more instance adds its block at the end of the file. */
  lemma BlocksStep(stores: seq<seq<PatternView>>, k: nat)
    requires k < |stores|
    ensures RuleFileLines(stores[..k + 1]) == RuleFileLines(stores[..k]) + SubsetBlock(k + 1, stores[k])
  {
    assert stores[..k + 1][..k] == stores[..k];
    var done := Blocks(stores[..k]);
    var block := SubsetBlock(k + 1, stores[k]);
    assert ([Header] + done) + block == [Header] + (done + block);
  }

  /** The blocks of the first `m` instances begin the blocks of all. */
  lemma {:induction false} BlocksPrefix(stores: seq<seq<PatternView>>, m: nat)
    requires m <= |stores|
    ensures |Blocks(stores[..m])| <= |Blocks(stores)|
    ensures forall x :: 0 <= x < |Blocks(stores[..m])| ==> Blocks(stores)[x] == Blocks(stores[..m])[x]
    decreases |stores|
  {
    if m < |stores| {
      var n := |stores| - 1;
      BlocksPrefix(stores[..n], m);
      assert stores[..n][..m] == stores[..m];
    } else {
      assert stores[..m] == stores;
    }
  }

  /** Where each instance's block sits in the file: its subset line is the
      `k + 1`-th, and its patterns' lines follow in order. */
  lemma BlocksAt(stores: seq<seq<PatternView>>, k: nat)
    requires k < |stores|
    ensures var o := |Blocks(stores[..k])|;
      o + 1 + |stores[k]| <= |Blocks(stores)| &&
      Blocks(stores)[o] == SubsetLine(k + 1) &&
      forall i :: 0 <= i < |stores[k]| ==> Blocks(stores)[o + 1 + i] == RuleLine(stores[k][i])
  {
    var p := stores[..k + 1];
    assert p[..k] == stores[..k];
    assert Blocks(p) == Blocks(stores[..k]) + SubsetBlock(k + 1, stores[k]);
    BlocksPrefix(stores, k + 1);
  }

  /** The file lists every instance under its own instance id, and every
      pattern of it under that pattern's rule id and escaped text. */
  lemma RuleFileOfRegistry(reg: Registry, k: nat, i: nat)
    requires reg.Valid()
    requires k < |reg.instances| && i < |reg.instances[k].pats|
    ensures var file := RuleFileLines(reg.Stores());
      var o := 1 + |Blocks(reg.Stores()[..k])|;
      o + 1 + i < |file| &&
      file[o] == SubsetLine(reg.instances[k].instanceId) &&
      file[o + 1 + i] == Digits(reg.instances[k].pats[i].ruleid) + ", " + reg.instances[k].pats[i].pat
  {
    BlocksAt(reg.Stores(), k);
  }

  /** The position of the first comma of `s`, or `|s|` when there is none. */
  function FirstComma(s: string): (i: nat)
    ensures i <= |s|
    ensures i < |s| ==> s[i] == ','
    ensures forall k :: 0 <= k < i ==> s[k] != ','
  {
    if |s| == 0 then 0 else if s[0] == ',' then 0 else 1 + FirstComma(s[1..])
  }

  /** Reads a rule line back: the digits before the first comma, which must be
      followed by a space, and the text after it. */
  function ParseRuleLine(line: string): Option<(nat, string)>
  {
    var i := FirstComma(line);
    if 0 < i && i + 2 <= |line| && line[i + 1] == ' ' && forall k :: 0 <= k < i ==> IsDigit(line[k]) then
      Some((DigitsValue(line[..i]), line[i + 2..]))
    else None
  }

  /** A rule line gives back the rule id and the text it was written from. */
  lemma RuleLineRoundTrip(p: PatternView)
    ensures ParseRuleLine(RuleLine(p)) == Some((p.ruleid, p.pat))
  {
    var d := Digits(p.ruleid);
    var line := RuleLine(p);
    DigitsValueOfDigits(p.ruleid);
    assert line[|d|] == ',';
    assert forall k :: 0 <= k < |d| ==> line[k] == d[k];
    assert FirstComma(line) == |d|;
    assert line[..|d|] == d;
    assert line[|d| + 2..] == p.pat;
  }
}
