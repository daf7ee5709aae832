/** What a search does with a decoded accelerator response: the match
    records it processes and the host callbacks it issues, one per binding of
    each matched pattern. The device itself is outside the model; its
    decoded response is an input. */
module MatchFanout {

  import opened MatchAgent

  /** One `match_data` entry: the rule id that matched and where. */
  datatype MatchRecord = MatchRecord(ruleId: int, startPtr: nat, length: nat)

  /** The decoded `rxp_response_data`: the returned count, the count the
      accelerator detected (which may be larger) and the match entries. */
  datatype Response = Response(matchCount: nat, detectedMatchCount: nat, matchData: seq<MatchRecord>)

  /** One call `mf(user, tree, to, pv, list)` of the host's match callback. */
  datatype Callback = Callback(user: Handle, tree: Handle, to: int, context: Handle, list: Handle)

  /** The records the search reads: the first `match_count`, or none. */
  function Processed(resp: Response): (recs: seq<MatchRecord>)
    requires resp.matchCount <= |resp.matchData|
    ensures |recs| == resp.matchCount
    ensures forall i :: 0 <= i < |recs| ==> recs[i] == resp.matchData[i]
  {
    if resp.matchCount == 0 then [] else resp.matchData[..resp.matchCount]
  }

  /** Every record names a rule id that the table knows. */
  predicate Resolvable(recs: seq<MatchRecord>, table: map<int, seq<UserCtx>>)
  {
    forall i :: 0 <= i < |recs| ==> recs[i].ruleId in table
  }

  /** The end offset reported for a match. */
  function EndOffset(rec: MatchRecord): int
  {
    rec.startPtr + rec.length
  }

  /** The callbacks issued for one record: one per binding, in binding order. */
  function Hits(rec: MatchRecord, cs: seq<UserCtx>, pv: Handle): (r: seq<Callback>)
    ensures |r| == |cs|
    ensures forall j :: 0 <= j < |cs| ==>
      r[j] == Callback(cs[j].user, cs[j].userTree, EndOffset(rec), pv, cs[j].userList)
  {
    seq(|cs|, j requires 0 <= j < |cs| => Callback(cs[j].user, cs[j].userTree, EndOffset(rec), pv, cs[j].userList))
  }

  /** The callbacks issued for a sequence of records, record by record. */
  function Fanout(recs: seq<MatchRecord>, table: map<int, seq<UserCtx>>, pv: Handle): seq<Callback>
    requires Resolvable(recs, table)
  {
    if |recs| == 0 then []
    else Fanout(recs[..|recs| - 1], table, pv) + Hits(recs[|recs| - 1], table[recs[|recs| - 1].ruleId], pv)
  }

  /** The number of bindings behind the matched records. */
  function HitCount(recs: seq<MatchRecord>, table: map<int, seq<UserCtx>>): nat
    requires Resolvable(recs, table)
  {
    if |recs| == 0 then 0
    else HitCount(recs[..|recs| - 1], table) + |table[recs[|recs| - 1].ruleId]|
  }

  /** There are as many callbacks as bindings behind the processed records. */
  lemma {:induction false} FanoutLength(recs: seq<MatchRecord>, table: map<int, seq<UserCtx>>, pv: Handle)
    requires Resolvable(recs, table)
    ensures |Fanout(recs, table, pv)| == HitCount(recs, table)
    decreases |recs|
  {
    if |recs| != 0 {
      FanoutLength(recs[..|recs| - 1], table, pv);
    }
  }

  /** The callbacks of the first `i` records come first. */
  lemma {:induction false} FanoutPrefix(recs: seq<MatchRecord>, table: map<int, seq<UserCtx>>, pv: Handle, i: nat)
    requires Resolvable(recs, table) && i <= |recs|
    ensures Fanout(recs[..i], table, pv) + Fanout(recs[i..], table, pv) == Fanout(recs, table, pv)
    decreases |recs| - i
  {
    if i == |recs| {
      assert recs[..i] == recs;
      assert recs[i..] == [];
    } else {
      var n := |recs| - 1;
      FanoutPrefix(recs[..n], table, pv, i);
      assert recs[..n][..i] == recs[..i];
      assert recs[i..][..|recs[i..]| - 1] == recs[..n][i..];
      assert recs[i..][|recs[i..]| - 1] == recs[n];
    }
  }

  /** The callbacks split around record `i`: those of the records before it,
      its own hits, those of the records after it. */
  lemma FanoutSplit(recs: seq<MatchRecord>, table: map<int, seq<UserCtx>>, pv: Handle, i: nat)
    requires Resolvable(recs, table) && i < |recs|
    ensures Fanout(recs, table, pv) ==
      Fanout(recs[..i], table, pv) + Hits(recs[i], table[recs[i].ruleId], pv) + Fanout(recs[i + 1..], table, pv)
  {
    FanoutPrefix(recs, table, pv, i);
    var rest := recs[i..];
    FanoutPrefix(rest, table, pv, 1);
    assert rest[..1] == [recs[i]];
    assert rest[1..] == recs[i + 1..];
    assert [recs[i]][..0] == [];
    assert Fanout([recs[i]], table, pv) == Hits(recs[i], table[recs[i].ruleId], pv);
  }

  /** Callback order: the one for binding `j` of record `i` sits after all the
      callbacks of the earlier records and the earlier bindings of record `i`,
      and passes that binding's user, tree and list with `to = start + length`. */
  lemma FanoutAt(recs: seq<MatchRecord>, table: map<int, seq<UserCtx>>, pv: Handle, i: nat, j: nat)
    requires Resolvable(recs, table)
    requires i < |recs| && j < |table[recs[i].ruleId]|
    ensures HitCount(recs[..i], table) + j < |Fanout(recs, table, pv)|
    ensures var c := table[recs[i].ruleId][j];
      Fanout(recs, table, pv)[HitCount(recs[..i], table) + j] ==
      Callback(c.user, c.userTree, recs[i].startPtr + recs[i].length, pv, c.userList)
  {
    var before := Fanout(recs[..i], table, pv);
    var hits := Hits(recs[i], table[recs[i].ruleId], pv);
    var after := Fanout(recs[i + 1..], table, pv);
    FanoutSplit(recs, table, pv, i);
    FanoutLength(recs[..i], table, pv);
    assert (before + hits + after)[|before| + j] == hits[j];
  }

  /** The length an oversized search is cut to: `min(n, max)`. */
  function JobLength(n: int, max: nat): (len: int)
    ensures len <= n && len <= max
    ensures len == n || len == max
  {
    if n > max then max else n
  }

  /** The overflow counter's step for one response: one when the accelerator
      detected more matches than it returned (and returned some). */
  function OverflowStep(resp: Response): (k: nat)
    ensures k <= 1
    ensures k == 1 <==> resp.matchCount != 0 && resp.detectedMatchCount > resp.matchCount
  {
    if resp.matchCount != 0 && resp.detectedMatchCount > resp.matchCount then 1 else 0
  }

  /** The callbacks a search issues for a response: none when nothing was
      returned, otherwise the fan-out of the returned records. */
  function SearchCallbacks(resp: Response, table: map<int, seq<UserCtx>>, pv: Handle): (r: seq<Callback>)
    requires resp.matchCount <= |resp.matchData|
    requires Resolvable(Processed(resp), table)
    ensures resp.matchCount == 0 ==> r == []
  {
    Fanout(Processed(resp), table, pv)
  }
}
