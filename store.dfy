/** The pattern store of one instance, as a value: the deduplicated patterns
    in registration order, each with its rule id, flags and bindings. The
    class `Rxp.RxpMpse` is proved to follow these definitions. */
module PatternStore {

  import opened Wrappers
  import opened MatchAgent

  /** The part of the host's pattern descriptor the adapter reads. */
  datatype PatternDescriptor = PatternDescriptor(noCase: bool, negated: bool)

  /** One `RxpPattern`: escaped text, rule id, flags and bindings. */
  datatype PatternView = PatternView(pat: string, ruleid: nat, noCase: bool, negate: bool, userctx: seq<UserCtx>)

  /** No two patterns of the store share an escaped text. */
  predicate DistinctTexts(s: seq<PatternView>)
  {
    forall a, b :: 0 <= a < b < |s| ==> s[a].pat != s[b].pat
  }

  /** Rule ids strictly increase in registration order. */
  predicate IdsIncreasing(s: seq<PatternView>)
  {
    forall a, b :: 0 <= a < b < |s| ==> s[a].ruleid < s[b].ruleid
  }

  /** Every rule id is one the shared counter has handed out: in `1..counter`. */
  predicate IdsIssued(s: seq<PatternView>, counter: nat)
  {
    forall k :: 0 <= k < |s| ==> 1 <= s[k].ruleid <= counter
  }

  /** The store invariant, relative to the shared rule-id counter. */
  predicate WellFormed(s: seq<PatternView>, counter: nat)
  {
    DistinctTexts(s) && IdsIncreasing(s) && IdsIssued(s, counter)
  }

  function TextSet(s: seq<PatternView>): set<string>
  {
    set k | 0 <= k < |s| :: s[k].pat
  }

  function IdSet(s: seq<PatternView>): set<nat>
  {
    set k | 0 <= k < |s| :: s[k].ruleid
  }

  /** The number of registrations the store holds: one binding each. */
  function TotalBindings(s: seq<PatternView>): nat
  {
    if |s| == 0 then 0 else TotalBindings(s[..|s| - 1]) + |s[|s| - 1].userctx|
  }

  /** The linear scan of `add_pattern`: the first pattern with this text. */
  function Find(s: seq<PatternView>, text: string): (r: Option<nat>)
    ensures r.None? <==> forall k :: 0 <= k < |s| ==> s[k].pat != text
    ensures r.Some? ==> r.value < |s| && s[r.value].pat == text &&
                        forall k :: 0 <= k < r.value ==> s[k].pat != text
  {
    if |s| == 0 then None
    else if s[0].pat == text then Some(0)
    else match Find(s[1..], text)
      case None => None
      case Some(i) => Some(i + 1)
  }

  /** `new RxpPattern(pattern, desc, user)` with its rule id assigned: the
      descriptor's flags and a single unbound context for the registering
      rule. */
  function NewPattern(text: string, desc: PatternDescriptor, user: Handle, id: nat): (p: PatternView)
    ensures p.pat == text && p.ruleid == id
    ensures p.noCase == desc.noCase && p.negate == desc.negated
    ensures p.userctx == [NewUserCtx(user)]
  {
    PatternView(text, id, desc.noCase, desc.negated, [NewUserCtx(user)])
  }

  /** `add_pattern` on the store: a duplicate text gains one binding, a new
      text becomes a new pattern with rule id `nextId` at the end. */
  function Add(s: seq<PatternView>, text: string, desc: PatternDescriptor, user: Handle, nextId: nat): seq<PatternView>
  {
    match Find(s, text)
    case Some(i) => s[i := s[i].(userctx := s[i].userctx + [NewUserCtx(user)])]
    case None => s + [NewPattern(text, desc, user, nextId)]
  }

  /** A duplicate adds one unbound context to the pattern with that text and
      changes nothing else. */
  lemma AddDuplicate(s: seq<PatternView>, text: string, desc: PatternDescriptor, user: Handle, nextId: nat, i: nat)
    requires DistinctTexts(s)
    requires i < |s| && s[i].pat == text
    ensures |Add(s, text, desc, user, nextId)| == |s|
    ensures Add(s, text, desc, user, nextId)[i] ==
      s[i].(userctx := s[i].userctx + [UserCtx(user, Null, Null)])
    ensures forall k :: 0 <= k < |s| && k != i ==> Add(s, text, desc, user, nextId)[k] == s[k]
  {
  }

  /** A new text is appended as a pattern with rule id `nextId`, the flags of
      the descriptor and a single unbound context. */
  lemma AddFresh(s: seq<PatternView>, text: string, desc: PatternDescriptor, user: Handle, nextId: nat)
    requires text !in TextSet(s)
    ensures Add(s, text, desc, user, nextId) ==
      s + [PatternView(text, nextId, desc.noCase, desc.negated, [UserCtx(user, Null, Null)])]
  {
  }

  /** Two stores with the same texts and ids agree on every property of the
      store invariant. */
  lemma SameKeys(s: seq<PatternView>, t: seq<PatternView>)
    requires |s| == |t|
    requires forall k :: 0 <= k < |s| ==> s[k].pat == t[k].pat && s[k].ruleid == t[k].ruleid
    ensures DistinctTexts(s) <==> DistinctTexts(t)
    ensures IdsIncreasing(s) <==> IdsIncreasing(t)
    ensures forall c :: IdsIssued(s, c) <==> IdsIssued(t, c)
    ensures TextSet(s) == TextSet(t) && IdSet(s) == IdSet(t)
  {
    assert TextSet(s) == TextSet(t) by {
      forall x | x in TextSet(s) ensures x in TextSet(t) {
        var k :| 0 <= k < |s| && s[k].pat == x;
        assert t[k].pat == x;
      }
      forall x | x in TextSet(t) ensures x in TextSet(s) {
        var k :| 0 <= k < |t| && t[k].pat == x;
        assert s[k].pat == x;
      }
    }
    assert IdSet(s) == IdSet(t) by {
      forall x | x in IdSet(s) ensures x in IdSet(t) {
        var k :| 0 <= k < |s| && s[k].ruleid == x;
        assert t[k].ruleid == x;
      }
      forall x | x in IdSet(t) ensures x in IdSet(s) {
        var k :| 0 <= k < |t| && t[k].ruleid == x;
        assert s[k].ruleid == x;
      }
    }
  }

  /** A store with distinct texts holds as many texts as patterns. */
  lemma {:induction false} TextSetSize(s: seq<PatternView>)
    requires DistinctTexts(s)
    ensures |TextSet(s)| == |s|
    decreases |s|
  {
    if |s| != 0 {
      var n := |s| - 1;
      TextSetSize(s[..n]);
      assert TextSet(s) == TextSet(s[..n]) + {s[n].pat} by {
        forall x | x in TextSet(s) ensures x in TextSet(s[..n]) + {s[n].pat} {
          var k :| 0 <= k < |s| && s[k].pat == x;
          if k < n { assert s[..n][k].pat == x; }
        }
      }
      assert s[n].pat !in TextSet(s[..n]);
    }
  }

  /** The rule id counter after an add: unchanged on a duplicate, one more
      otherwise. */
  function NextCounter(s: seq<PatternView>, text: string, counter: nat): nat
  {
    if text in TextSet(s) then counter else counter + 1
  }

  lemma {:induction false} TotalBindingsAppend(s: seq<PatternView>, t: seq<PatternView>)
    ensures TotalBindings(s + t) == TotalBindings(s) + TotalBindings(t)
    decreases |t|
  {
    if |t| == 0 {
      assert s + t == s;
    } else {
      assert (s + t)[..|s + t| - 1] == s + t[..|t| - 1];
      TotalBindingsAppend(s, t[..|t| - 1]);
    }
  }

  lemma {:induction false} TotalBindingsUpdate(s: seq<PatternView>, i: nat, p: PatternView)
    requires i < |s|
    ensures TotalBindings(s[i := p]) + |s[i].userctx| == TotalBindings(s) + |p.userctx|
    decreases |s|
  {
    var n := |s| - 1;
    if i == n {
      assert s[i := p][..n] == s[..n];
    } else {
      assert s[i := p][..n] == s[..n][i := p];
      TotalBindingsUpdate(s[..n], i, p);
    }
  }

  lemma AddDuplicateKeeps(s: seq<PatternView>, text: string, desc: PatternDescriptor, user: Handle, counter: nat)
    requires WellFormed(s, counter)
    requires text in TextSet(s)
    ensures WellFormed(Add(s, text, desc, user, counter + 1), counter)
    ensures TextSet(Add(s, text, desc, user, counter + 1)) == TextSet(s)
    ensures IdSet(Add(s, text, desc, user, counter + 1)) == IdSet(s)
    ensures TotalBindings(Add(s, text, desc, user, counter + 1)) == TotalBindings(s) + 1
  {
    var r := Add(s, text, desc, user, counter + 1);
    var i := Find(s, text).value;
    AddDuplicate(s, text, desc, user, counter + 1, i);
    var p := s[i].(userctx := s[i].userctx + [NewUserCtx(user)]);
    assert r == s[i := p];
    assert TotalBindings(r) == TotalBindings(s) + 1 by {
      TotalBindingsUpdate(s, i, p);
    }
    assert WellFormed(r, counter) && TextSet(r) == TextSet(s) && IdSet(r) == IdSet(s) by {
      SameKeys(s, r);
    }
  }

  /** Appending a pattern adds its text, its rule id and its bindings. */
  lemma AppendSets(s: seq<PatternView>, p: PatternView)
    ensures TextSet(s + [p]) == TextSet(s) + {p.pat}
    ensures IdSet(s + [p]) == IdSet(s) + {p.ruleid}
    ensures TotalBindings(s + [p]) == TotalBindings(s) + |p.userctx|
  {
    var r := s + [p];
    assert TotalBindings(r) == TotalBindings(s) + |p.userctx| by {
      TotalBindingsAppend(s, [p]);
      assert [p][..0] == [];
    }
    assert TextSet(r) == TextSet(s) + {p.pat} by {
      forall t | t in TextSet(s) ensures t in TextSet(r) {
        var k :| 0 <= k < |s| && s[k].pat == t;
        assert r[k].pat == t;
      }
      assert r[|s|].pat == p.pat;
    }
    assert IdSet(r) == IdSet(s) + {p.ruleid} by {
      forall t | t in IdSet(s) ensures t in IdSet(r) {
        var k :| 0 <= k < |s| && s[k].ruleid == t;
        assert r[k].ruleid == t;
      }
      assert r[|s|].ruleid == p.ruleid;
    }
  }

  /** A pattern with a new text and the next rule id keeps the invariant. */
  lemma AppendWellFormed(s: seq<PatternView>, p: PatternView, counter: nat)
    requires WellFormed(s, counter)
    requires p.pat !in TextSet(s) && p.ruleid == counter + 1
    ensures WellFormed(s + [p], counter + 1)
  {
    var r := s + [p];
    assert forall k :: 0 <= k < |s| ==> r[k] == s[k];
    forall a, b | 0 <= a < b < |r| ensures r[a].pat != r[b].pat && r[a].ruleid < r[b].ruleid {
      if b == |s| {
        assert r[a].pat in TextSet(s);
        assert r[a].ruleid <= counter;
      }
    }
  }

  lemma AddFreshKeeps(s: seq<PatternView>, text: string, desc: PatternDescriptor, user: Handle, counter: nat)
    requires WellFormed(s, counter)
    requires text !in TextSet(s)
    ensures WellFormed(Add(s, text, desc, user, counter + 1), counter + 1)
    ensures TextSet(Add(s, text, desc, user, counter + 1)) == TextSet(s) + {text}
    ensures IdSet(Add(s, text, desc, user, counter + 1)) == IdSet(s) + {counter + 1}
    ensures TotalBindings(Add(s, text, desc, user, counter + 1)) == TotalBindings(s) + 1
  {
    var p := NewPattern(text, desc, user, counter + 1);
    assert Add(s, text, desc, user, counter + 1) == s + [p];
    AppendSets(s, p);
    AppendWellFormed(s, p, counter);
  }

  /** `add_pattern` keeps the store invariant, with the counter advanced
      exactly when a new pattern is made; the set of texts grows by the new
      text; every registration is one more binding. */
  lemma AddKeepsWellFormed(s: seq<PatternView>, text: string, desc: PatternDescriptor, user: Handle, counter: nat)
    requires WellFormed(s, counter)
    ensures WellFormed(Add(s, text, desc, user, counter + 1), NextCounter(s, text, counter))
    ensures TextSet(Add(s, text, desc, user, counter + 1)) == TextSet(s) + {text}
    ensures TotalBindings(Add(s, text, desc, user, counter + 1)) == TotalBindings(s) + 1
    ensures text in TextSet(s) ==> IdSet(Add(s, text, desc, user, counter + 1)) == IdSet(s)
    ensures text !in TextSet(s) ==> IdSet(Add(s, text, desc, user, counter + 1)) == IdSet(s) + {counter + 1}
  {
    if text in TextSet(s) {
      AddDuplicateKeeps(s, text, desc, user, counter);
    } else {
      AddFreshKeeps(s, text, desc, user, counter);
    }
  }

  /** Adding the same text twice in a row makes one pattern, not two: the
      second add is a duplicate and keeps the counter. */
  lemma AddTwice(s: seq<PatternView>, text: string, d1: PatternDescriptor, d2: PatternDescriptor,
                 u1: Handle, u2: Handle, counter: nat)
    requires WellFormed(s, counter)
    ensures var s1 := Add(s, text, d1, u1, counter + 1);
            var c1 := NextCounter(s, text, counter);
            NextCounter(s1, text, c1) == c1 &&
            |Add(s1, text, d2, u2, c1 + 1)| == |s1| &&
            IdSet(Add(s1, text, d2, u2, c1 + 1)) == IdSet(s1)
  {
    var s1 := Add(s, text, d1, u1, counter + 1);
    var c1 := NextCounter(s, text, counter);
    AddKeepsWellFormed(s, text, d1, u1, counter);
    AddKeepsWellFormed(s1, text, d2, u2, c1);
    var i := Find(s1, text).value;
    AddDuplicate(s1, text, d2, u2, c1 + 1, i);
  }

  /** The store after `prep_patterns`: every binding of every pattern prepared. */
  function Prepared(agent: Agent, s: seq<PatternView>): (r: seq<PatternView>)
    ensures |r| == |s|
    ensures forall k :: 0 <= k < |s| ==>
      r[k] == s[k].(userctx := PreparedBindings(agent, s[k].negate, s[k].userctx))
  {
    seq(|s|, k requires 0 <= k < |s| => s[k].(userctx := PreparedBindings(agent, s[k].negate, s[k].userctx)))
  }

  /** The calls `user_ctor` makes, pattern by pattern. */
  function StorePrepCalls(agent: Agent, s: seq<PatternView>): seq<AgentCall>
  {
    if |s| == 0 then []
    else StorePrepCalls(agent, s[..|s| - 1]) + PrepCalls(agent, s[|s| - 1].negate, s[|s| - 1].userctx)
  }

  /** The calls `user_dtor` makes, pattern by pattern. */
  function StoreDtorCalls(s: seq<PatternView>): seq<AgentCall>
  {
    if |s| == 0 then [] else StoreDtorCalls(s[..|s| - 1]) + DtorCalls(s[|s| - 1].userctx)
  }

  /** Preparation changes only the bindings' trees and lists: the texts, ids,
      flags, users and the number of bindings stay, so the store invariant
      still holds. */
  lemma {:induction false} PreparedKeeps(agent: Agent, s: seq<PatternView>, counter: nat)
    requires WellFormed(s, counter)
    ensures WellFormed(Prepared(agent, s), counter)
    ensures TotalBindings(Prepared(agent, s)) == TotalBindings(s)
    ensures forall k, j :: 0 <= k < |s| && 0 <= j < |s[k].userctx| ==>
      |Prepared(agent, s)[k].userctx| == |s[k].userctx| &&
      Prepared(agent, s)[k].userctx[j].user == s[k].userctx[j].user
    decreases |s|
  {
    if |s| != 0 {
      var n := |s| - 1;
      assert Prepared(agent, s)[..n] == Prepared(agent, s[..n]);
      PreparedKeeps(agent, s[..n], counter);
    }
  }

  /** Preparing the whole store issues one null-context tree build per
      binding, and one user-context call (negate-list for a negated pattern,
      tree build otherwise) per binding with a user context. */
  lemma {:induction false} StorePrepCallsCounts(agent: Agent, s: seq<PatternView>)
    ensures CountCalls(StorePrepCalls(agent, s), IsNullBuild) == TotalBindings(s)
    ensures CountCalls(StorePrepCalls(agent, s), IsNegate) + CountCalls(StorePrepCalls(agent, s), IsUserBuild) ==
            UsersBound(s)
    decreases |s|
  {
    if |s| != 0 {
      var n := |s| - 1;
      StorePrepCallsCounts(agent, s[..n]);
      PrepCallsCounts(agent, s[n].negate, s[n].userctx);
      CountCallsAppend(StorePrepCalls(agent, s[..n]), PrepCalls(agent, s[n].negate, s[n].userctx), IsNullBuild);
      CountCallsAppend(StorePrepCalls(agent, s[..n]), PrepCalls(agent, s[n].negate, s[n].userctx), IsNegate);
      CountCallsAppend(StorePrepCalls(agent, s[..n]), PrepCalls(agent, s[n].negate, s[n].userctx), IsUserBuild);
    }
  }

  /** The number of bindings with a non-null user context. */
  function UsersBound(s: seq<PatternView>): nat
  {
    if |s| == 0 then 0 else UsersBound(s[..|s| - 1]) + CountBindings(s[|s| - 1].userctx, HasUser)
  }

  /** Teardown of the whole store frees each non-null user context once and
      never frees a null handle. */
  lemma {:induction false} StoreDtorCallsCounts(s: seq<PatternView>)
    ensures CountCalls(StoreDtorCalls(s), IsUserFree) == UsersBound(s)
    ensures NoNullFree(StoreDtorCalls(s))
    decreases |s|
  {
    if |s| != 0 {
      var n := |s| - 1;
      StoreDtorCallsCounts(s[..n]);
      DtorCallsCounts(s[n].userctx);
      CountCallsAppend(StoreDtorCalls(s[..n]), DtorCalls(s[n].userctx), IsUserFree);
    }
  }
}
