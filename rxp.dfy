/** The RXP search-engine adapter: the process-wide counters and instance
    registry, and one `RxpMpse` instance per pattern subset holding its
    deduplicated patterns and its rule-id table. */
module Rxp {

  import opened Wrappers
  import opened Escape
  import opened MatchAgent
  import opened PatternStore
  import opened MatchFanout

  /** `ruleid` is a `uint16_t`: every id handed out must stay below this. */
  const RuleIdLimit: nat := 65536

  /** The conversion of the counter to the `uint16_t` rule id. */
  function ToRuleId(x: nat): (id: nat)
    ensures id < RuleIdLimit
    ensures x == (x / RuleIdLimit) * RuleIdLimit + id
    ensures x < RuleIdLimit ==> id == x
  {
    x % RuleIdLimit
  }

  /** A job handed to the accelerator: its id, the searched length and the
      routing identifiers (the instance id, passed in all four slots). */
  datatype Job = Job(id: nat, length: int, subsets: seq<nat>)

  /** The rule-id table maps exactly the ids of the patterns, each to the
      position of the pattern carrying it. */
  predicate TableOf(ps: seq<PatternView>, tbl: map<int, nat>)
  {
    (forall k :: 0 <= k < |ps| ==> ps[k].ruleid in tbl && tbl[ps[k].ruleid] == k) &&
    (forall id :: id in tbl ==> tbl[id] < |ps| && ps[tbl[id]].ruleid == id)
  }

  /** `add_pattern` keeps the table in step with the patterns: a duplicate
      leaves it as it is, a new pattern enters its id at its position. */
  lemma AddKeepsTable(s: seq<PatternView>, tbl: map<int, nat>, text: string, desc: PatternDescriptor, user: Handle, counter: nat)
    requires WellFormed(s, counter) && TableOf(s, tbl)
    ensures text in TextSet(s) ==> TableOf(Add(s, text, desc, user, counter + 1), tbl)
    ensures text !in TextSet(s) ==> TableOf(Add(s, text, desc, user, counter + 1), tbl[counter + 1 := |s|])
  {
    var r := Add(s, text, desc, user, counter + 1);
    if text in TextSet(s) {
      var i := Find(s, text).value;
      assert forall k :: 0 <= k < |s| ==> r[k].ruleid == s[k].ruleid;
    } else {
      assert forall k :: 0 <= k < |s| ==> r[k] == s[k];
      forall k | 0 <= k < |s| ensures r[k].ruleid in tbl[counter + 1 := |s|] && tbl[counter + 1 := |s|][r[k].ruleid] == k {
        assert s[k].ruleid <= counter;
      }
    }
  }

  /** The scan of `add_pattern`: the first pattern with this escaped text. */
  method Lookup(ps: seq<PatternView>, text: string) returns (found: Option<nat>)
    ensures found == Find(ps, text)
  {
    var i := 0;
    while i < |ps|
      invariant 0 <= i <= |ps|
      invariant forall k :: 0 <= k < i ==> ps[k].pat != text
    {
      if ps[i].pat == text {
        return Some(i);
      }
      i := i + 1;
    }
    return None;
  }

  /** The body of the inner loop of `user_ctor` for one binding: with a user,
      negate its list or build its tree; then build the tree again for the
      null user. */
  method PrepareBinding(agent: Agent, negate: bool, c: UserCtx) returns (d: UserCtx, calls: seq<AgentCall>)
    ensures (d, calls) == PrepBinding(agent, negate, c)
  {
    d := c;
    calls := [];
    if d.user != Null {
      if negate {
        calls := [NegateList(d.user, d.userList)];
        d := d.(userList := agent.negateList(d.user, d.userList));
      } else {
        calls := [BuildTree(d.user, d.userTree)];
        d := d.(userTree := agent.buildTree(d.user, d.userTree));
      }
    }
    calls := calls + [BuildTree(Null, d.userTree)];
    d := d.(userTree := agent.buildTree(Null, d.userTree));
  }

  /** The inner loop of `user_ctor`: prepares every binding of one pattern
      in turn and records the agent calls. */
  method PrepareBindings(agent: Agent, negate: bool, cs: seq<UserCtx>) returns (r: seq<UserCtx>, calls: seq<AgentCall>)
    ensures r == PreparedBindings(agent, negate, cs)
    ensures calls == PrepCalls(agent, negate, cs)
  {
    r := cs;
    calls := [];
    var j := 0;
    while j < |r|
      invariant 0 <= j <= |r| == |cs|
      invariant forall m :: 0 <= m < |cs| ==>
        r[m] == if m < j then PrepBinding(agent, negate, cs[m]).0 else cs[m]
      invariant calls == PrepCalls(agent, negate, cs[..j])
    {
      var c, step := PrepareBinding(agent, negate, r[j]);
      assert cs[..j + 1][..j] == cs[..j];
      calls := calls + step;
      r := r[j := c];
      j := j + 1;
    }
    assert cs[..j] == cs;
  }

  /** The outer loop of `user_ctor`: prepares the bindings of every pattern
      in turn, collecting the agent calls. */
  method PrepareAll(agent: Agent, s: seq<PatternView>) returns (r: seq<PatternView>, calls: seq<AgentCall>)
    ensures r == Prepared(agent, s)
    ensures calls == StorePrepCalls(agent, s)
  {
    r := s;
    calls := [];
    var i := 0;
    while i < |r|
      invariant 0 <= i <= |r| == |s|
      invariant forall k :: 0 <= k < |s| ==> r[k] == if k < i then Prepared(agent, s)[k] else s[k]
      invariant calls == StorePrepCalls(agent, s[..i])
    {
      var p := r[i];
      var cs, pcalls := PrepareBindings(agent, p.negate, p.userctx);
      assert s[..i + 1][..i] == s[..i];
      r := r[i := p.(userctx := cs)];
      calls := calls + pcalls;
      i := i + 1;
    }
    assert s[..i] == s;
  }

  /** Preparation keeps the texts and the ids, hence the store invariant and
      the table. */
  lemma PreparedStore(agent: Agent, s: seq<PatternView>, tbl: map<int, nat>)
    requires DistinctTexts(s) && IdsIncreasing(s) && TableOf(s, tbl)
    ensures var r := Prepared(agent, s);
      DistinctTexts(r) && IdsIncreasing(r) && TableOf(r, tbl) && IdSet(r) == IdSet(s) &&
      forall c :: IdsIssued(s, c) ==> IdsIssued(r, c)
  {
    SameKeys(s, Prepared(agent, s));
  }

  /** The inner loop of `user_dtor`: the release calls for every binding of
      one pattern. */
  method ReleaseBindings(cs: seq<UserCtx>) returns (calls: seq<AgentCall>)
    ensures calls == DtorCalls(cs)
  {
    calls := [];
    var j := 0;
    while j < |cs|
      invariant 0 <= j <= |cs|
      invariant calls == DtorCalls(cs[..j])
    {
      var c := cs[j];
      assert cs[..j + 1][..j] == cs[..j];
      if c.user != Null {
        calls := calls + [UserFree(c.user)];
      }
      if c.userList != Null {
        calls := calls + [ListFree(c.userList)];
      }
      if c.userTree != Null {
        calls := calls + [TreeFree(c.userTree)];
      }
      j := j + 1;
    }
    assert cs[..j] == cs;
  }

  /** The duplicate path on values: one more context on the pattern at `i`
      keeps the store invariant, the table and the ids. */
  lemma DuplicateStep(s: seq<PatternView>, tbl: map<int, nat>, text: string, desc: PatternDescriptor, user: Handle, counter: nat, i: nat)
    requires WellFormed(s, counter) && TableOf(s, tbl)
    requires Find(s, text) == Some(i)
    ensures var r := s[i := s[i].(userctx := s[i].userctx + [NewUserCtx(user)])];
      r == Add(s, text, desc, user, counter + 1) &&
      WellFormed(r, counter) && TableOf(r, tbl) && IdSet(r) == IdSet(s)
  {
    assert text in TextSet(s);
    AddDuplicateKeeps(s, text, desc, user, counter);
    AddKeepsTable(s, tbl, text, desc, user, counter);
  }

  /** The new-text path on values: appending the new pattern under the next
      id and entering that id at its position keeps the store invariant and
      the table. */
  lemma FreshStep(s: seq<PatternView>, tbl: map<int, nat>, text: string, desc: PatternDescriptor, user: Handle, counter: nat)
    requires WellFormed(s, counter) && TableOf(s, tbl)
    requires Find(s, text).None? && counter + 1 < RuleIdLimit
    ensures var r := s + [NewPattern(text, desc, user, ToRuleId(counter + 1))];
      r == Add(s, text, desc, user, counter + 1) &&
      WellFormed(r, counter + 1) && TableOf(r, tbl[counter + 1 := |s|]) &&
      IdSet(r) == IdSet(s) + {counter + 1}
  {
    assert text !in TextSet(s);
    AddFreshKeeps(s, text, desc, user, counter);
    AddKeepsTable(s, tbl, text, desc, user, counter);
  }

  /** Ids handed out up to `counter` are all at most `counter`. */
  lemma IdsBelow(s: seq<PatternView>, counter: nat)
    requires IdsIssued(s, counter)
    ensures forall z :: z in IdSet(s) ==> z <= counter
  {
  }

  /** The cross-instance part of the registry invariant, on the instances'
      stores: every id is one the shared counter handed out, and no id is in
      two stores. */
  predicate StoresOk(stores: seq<seq<PatternView>>, counter: nat)
  {
    (forall k :: 0 <= k < |stores| ==> IdsIssued(stores[k], counter)) &&
    (forall j, k :: 0 <= j < k < |stores| ==> IdSet(stores[j]) !! IdSet(stores[k]))
  }

  /** Replacing one store by one that only adds the next id, while the
      counter moves by at most one, keeps the invariant. */
  lemma StoreStep(stores: seq<seq<PatternView>>, counter: nat, i: nat, s: seq<PatternView>, counter': nat)
    requires StoresOk(stores, counter) && i < |stores|
    requires counter <= counter' <= counter + 1
    requires IdsIssued(s, counter')
    requires IdSet(s) <= IdSet(stores[i]) + {counter + 1}
    ensures StoresOk(stores[i := s], counter')
  {
    var r := stores[i := s];
    forall j, k | 0 <= j < k < |r| ensures IdSet(r[j]) !! IdSet(r[k]) {
      if j == i {
        IdsBelow(r[k], counter);
      } else if k == i {
        IdsBelow(r[j], counter);
      }
    }
  }

  /** The invariant of one instance's store: distinct texts, increasing ids,
      and a table that maps exactly the ids to their positions. */
  predicate StoreValid(ps: seq<PatternView>, tbl: map<int, nat>)
  {
    DistinctTexts(ps) && IdsIncreasing(ps) && TableOf(ps, tbl)
  }

  /** The registry invariant on the instances' stores and tables. */
  predicate RegistryOk(stores: seq<seq<PatternView>>, tables: seq<map<int, nat>>, counter: nat)
  {
    |stores| == |tables| &&
    (forall k :: 0 <= k < |stores| ==> StoreValid(stores[k], tables[k])) &&
    StoresOk(stores, counter)
  }

  /** Replacing one instance's store and table by valid ones that only add
      the next id, the counter moving by at most one, keeps the invariant. */
  lemma RegistryStep(stores: seq<seq<PatternView>>, tables: seq<map<int, nat>>, counter: nat,
                     i: nat, s: seq<PatternView>, t: map<int, nat>, counter': nat)
    requires RegistryOk(stores, tables, counter) && i < |stores|
    requires counter <= counter' <= counter + 1
    requires StoreValid(s, t) && IdsIssued(s, counter') && IdSet(s) <= IdSet(stores[i]) + {counter + 1}
    ensures RegistryOk(stores[i := s], tables[i := t], counter')
  {
    StoreStep(stores, counter, i, s, counter');
  }

  /** A new instance with an empty store keeps the invariant. */
  lemma RegistryGrow(stores: seq<seq<PatternView>>, tables: seq<map<int, nat>>, counter: nat)
    requires RegistryOk(stores, tables, counter)
    ensures RegistryOk(stores + [[]], tables + [map[]], counter)
  {
    var s, t := stores + [[]], tables + [map[]];
    assert forall k :: 0 <= k < |stores| ==> s[k] == stores[k] && t[k] == tables[k];
  }

  /** The process-wide statics: counters and the list of live instances. */
  class Registry {
    var duplicates: nat
    var jobsSubmitted: nat
    var matchLimit: nat
    var patterns: nat
    var maxPatternLen: nat
    var instances: seq<RxpMpse>

    /** The registry invariant: an instance's id is its 1-based position, each
        instance's store is valid, every rule id is one the shared counter has
        handed out and no rule id is used by two instances. */
    ghost predicate Valid()
      reads this, instances
    {
      (forall k :: 0 <= k < |instances| ==> instances[k].registry == this && instances[k].instanceId == k + 1) &&
      RegistryOk(Stores(), Tables(), patterns)
    }

    /** The stores of the instances, in instance order. */
    ghost function Stores(): (r: seq<seq<PatternView>>)
      reads this, instances
      ensures |r| == |instances|
      ensures forall k :: 0 <= k < |instances| ==> r[k] == instances[k].pats
    {
      seq(|instances|, k reads this, instances requires 0 <= k < |instances| => instances[k].pats)
    }

    /** The rule-id tables of the instances, in instance order. */
    ghost function Tables(): (r: seq<map<int, nat>>)
      reads this, instances
      ensures |r| == |instances|
      ensures forall k :: 0 <= k < |instances| ==> r[k] == instances[k].ruleidtbl
    {
      seq(|instances|, k reads this, instances requires 0 <= k < |instances| => instances[k].ruleidtbl)
    }

    /** No instance holds a pattern yet. */
    ghost predicate NoPatterns()
      reads this, instances
    {
      forall k :: 0 <= k < |instances| ==> instances[k].pats == []
    }

    /** The zero-initialised statics. */
    constructor ()
      ensures duplicates == 0 && jobsSubmitted == 0 && matchLimit == 0
      ensures patterns == 0 && maxPatternLen == 0 && instances == []
      ensures Valid()
    {
      duplicates, jobsSubmitted, matchLimit := 0, 0, 0;
      patterns, maxPatternLen := 0, 0;
      instances := [];
    }

    /** The invariant is restored after one instance changed its store in a
        way that only adds the next id, the counter moving by at most one,
        while the other instances kept their stores and tables. */
    lemma Restore(m: RxpMpse, k: nat, stores: seq<seq<PatternView>>, tables: seq<map<int, nat>>, counter: nat)
      requires k < |instances| && instances[k] == m && |stores| == |tables| == |instances|
      requires forall j :: 0 <= j < |instances| ==> instances[j].registry == this && instances[j].instanceId == j + 1
      requires forall j :: 0 <= j < |instances| && j != k ==>
        instances[j].pats == stores[j] && instances[j].ruleidtbl == tables[j]
      requires RegistryOk(stores, tables, counter) && counter <= patterns <= counter + 1
      requires m.Valid() && IdsIssued(m.pats, patterns) && IdSet(m.pats) <= IdSet(stores[k]) + {counter + 1}
      ensures Valid()
    {
      RegistryStep(stores, tables, counter, k, m.pats, m.ruleidtbl, patterns);
      assert Stores() == stores[k := m.pats];
      assert Tables() == tables[k := m.ruleidtbl];
    }

    /** `rxp_init`: resets four counters; the duplicate counter and the
        instance list are left as they are. */
    method Init()
      requires Valid()
      modifies this
      ensures jobsSubmitted == 0 && matchLimit == 0 && patterns == 0 && maxPatternLen == 0
      ensures duplicates == old(duplicates) && instances == old(instances)
      ensures NoPatterns() ==> Valid()
    {
      jobsSubmitted := 0;
      matchLimit := 0;
      patterns := 0;
      maxPatternLen := 0;
    }
  }

  /** One subset: a search-engine instance with its own deduplicated patterns
      (in registration order) and rule-id table. */
  class RxpMpse {
    const registry: Registry
    const agent: Agent
    const instanceId: nat
    var pats: seq<PatternView>
    var ruleidtbl: map<int, nat>

    /** The store invariant: distinct texts, increasing ids, and a table that
        maps exactly the ids of `pats` to their positions. */
    ghost predicate Valid()
      reads this
    {
      StoreValid(pats, ruleidtbl)
    }

    /** The bindings behind each rule id, as the search resolves them. */
    function Bindings(): map<int, seq<UserCtx>>
      reads this
    {
      map id | id in ruleidtbl && ruleidtbl[id] < |pats| :: pats[ruleidtbl[id]].userctx
    }

    /** The constructor: registers the instance, whose id is its 1-based
        position in the instance list. */
    constructor (reg: Registry, a: Agent)
      requires reg.Valid()
      modifies reg
      ensures registry == reg && agent == a
      ensures reg.instances == old(reg.instances) + [this]
      ensures instanceId == |reg.instances|
      ensures pats == [] && ruleidtbl == map[]
      ensures reg.duplicates == old(reg.duplicates) && reg.jobsSubmitted == old(reg.jobsSubmitted)
      ensures reg.matchLimit == old(reg.matchLimit) && reg.patterns == old(reg.patterns)
      ensures reg.maxPatternLen == old(reg.maxPatternLen)
      ensures reg.Valid()
    {
      ghost var stores, tables := reg.Stores(), reg.Tables();
      registry := reg;
      agent := a;
      instanceId := |reg.instances| + 1;
      pats := [];
      ruleidtbl := map[];
      new;
      reg.instances := reg.instances + [this];
      assert reg.Valid() by {
        assert reg.Stores() == stores + [[]];
        assert reg.Tables() == tables + [map[]];
        RegistryGrow(stores, tables, reg.patterns);
      }
    }

    /** `get_pattern_count`: the number of distinct escaped texts stored. */
    function PatternCount(): (c: nat)
      reads this
      requires Valid()
      ensures c == |TextSet(pats)|
    {
      TextSetSize(pats);
      |pats|
    }

    /** The duplicate path of `add_pattern`: the pattern at `i` has the text
        and gains an unbound context for `user`; the duplicate counter moves. */
    method AddBinding(i: nat, text: string, desc: PatternDescriptor, user: Handle)
      requires Valid() && IdsIssued(pats, registry.patterns)
      requires Find(pats, text) == Some(i)
      modifies this, registry
      ensures pats == Add(old(pats), text, desc, user, old(registry.patterns) + 1)
      ensures Valid() && IdsIssued(pats, registry.patterns)
      ensures IdSet(pats) == old(IdSet(pats))
      ensures ruleidtbl == old(ruleidtbl)
      ensures registry.duplicates == old(registry.duplicates) + 1
      ensures registry.patterns == old(registry.patterns) && registry.maxPatternLen == old(registry.maxPatternLen)
      ensures registry.instances == old(registry.instances)
      ensures registry.jobsSubmitted == old(registry.jobsSubmitted) && registry.matchLimit == old(registry.matchLimit)
    {
      DuplicateStep(pats, ruleidtbl, text, desc, user, registry.patterns, i);
      pats := pats[i := pats[i].(userctx := pats[i].userctx + [NewUserCtx(user)])];
      registry.duplicates := registry.duplicates + 1;
    }

    /** The new-text path of `add_pattern`: the counter moves, the new
        pattern takes the next rule id, enters the table at its position and is
        appended; the longest-pattern length is raised to `len` if needed. */
    method AddNewPattern(text: string, len: nat, desc: PatternDescriptor, user: Handle)
      requires Valid() && IdsIssued(pats, registry.patterns)
      requires Find(pats, text).None?
      requires registry.patterns < RuleIdLimit - 1
      modifies this, registry
      ensures pats == Add(old(pats), text, desc, user, old(registry.patterns) + 1)
      ensures Valid() && IdsIssued(pats, registry.patterns)
      ensures IdSet(pats) == old(IdSet(pats)) + {old(registry.patterns) + 1}
      ensures ruleidtbl == old(ruleidtbl)[old(registry.patterns) + 1 := old(|pats|)]
      ensures registry.patterns == old(registry.patterns) + 1
      ensures registry.maxPatternLen == if len > old(registry.maxPatternLen) then len else old(registry.maxPatternLen)
      ensures registry.duplicates == old(registry.duplicates)
      ensures registry.instances == old(registry.instances)
      ensures registry.jobsSubmitted == old(registry.jobsSubmitted) && registry.matchLimit == old(registry.matchLimit)
    {
      var counter := registry.patterns + 1;
      var rxpPat := NewPattern(text, desc, user, ToRuleId(counter));
      var longest := registry.maxPatternLen;
      if len > longest {
        longest := len;
      }
      FreshStep(pats, ruleidtbl, text, desc, user, registry.patterns);
      pats, ruleidtbl := pats + [rxpPat], ruleidtbl[rxpPat.ruleid := |pats|];
      registry.patterns, registry.maxPatternLen := counter, longest;
    }

    /** The body of `add_pattern` after escaping: a text this instance
        already has gains a binding and counts as a duplicate; a new text
        becomes a pattern with the next rule id of the shared counter,
        entered in the table and appended. */
    method AddText(text: string, len: nat, desc: PatternDescriptor, user: Handle)
      requires Valid() && IdsIssued(pats, registry.patterns)
      requires registry.patterns < RuleIdLimit - 1
      modifies this, registry
      ensures pats == Add(old(pats), text, desc, user, old(registry.patterns) + 1)
      ensures Valid() && IdsIssued(pats, registry.patterns)
      ensures IdSet(pats) <= old(IdSet(pats)) + {old(registry.patterns) + 1}
      ensures registry.instances == old(registry.instances)
      ensures registry.jobsSubmitted == old(registry.jobsSubmitted) && registry.matchLimit == old(registry.matchLimit)
      ensures old(Find(pats, text)).Some? ==>
        ruleidtbl == old(ruleidtbl) &&
        registry.patterns == old(registry.patterns) && registry.maxPatternLen == old(registry.maxPatternLen) &&
        registry.duplicates == old(registry.duplicates) + 1
      ensures old(Find(pats, text)).None? ==>
        ruleidtbl == old(ruleidtbl)[old(registry.patterns) + 1 := old(|pats|)] &&
        registry.patterns == old(registry.patterns) + 1 &&
        registry.maxPatternLen == (if len > old(registry.maxPatternLen) then len else old(registry.maxPatternLen)) &&
        registry.duplicates == old(registry.duplicates)
    {
      var found := Lookup(pats, text);
      if found.Some? {
        AddBinding(found.value, text, desc, user);
      } else {
        AddNewPattern(text, len, desc, user);
      }
    }

    /** `add_pattern` after escaping, at the level of the registry: the text
        is added to this instance and the registry invariant is kept. */
    method Register(text: string, len: nat, desc: PatternDescriptor, user: Handle)
      requires registry.Valid() && this in registry.instances
      requires registry.patterns < RuleIdLimit - 1
      modifies this, registry
      ensures pats == Add(old(pats), text, desc, user, old(registry.patterns) + 1)
      ensures registry.Valid()
      ensures registry.instances == old(registry.instances)
      ensures registry.jobsSubmitted == old(registry.jobsSubmitted) && registry.matchLimit == old(registry.matchLimit)
      ensures old(Find(pats, text)).Some? ==>
        ruleidtbl == old(ruleidtbl) &&
        registry.patterns == old(registry.patterns) && registry.maxPatternLen == old(registry.maxPatternLen) &&
        registry.duplicates == old(registry.duplicates) + 1
      ensures old(Find(pats, text)).None? ==>
        ruleidtbl == old(ruleidtbl)[old(registry.patterns) + 1 := old(|pats|)] &&
        registry.patterns == old(registry.patterns) + 1 &&
        registry.maxPatternLen == (if len > old(registry.maxPatternLen) then len else old(registry.maxPatternLen)) &&
        registry.duplicates == old(registry.duplicates)
    {
      ghost var k := InstanceWellFormed();
      ghost var stores, tables, counter := registry.Stores(), registry.Tables(), registry.patterns;
      AddText(text, len, desc, user);
      assert registry.Valid() by {
        forall j | 0 <= j < |registry.instances| && j != k
          ensures registry.instances[j].pats == stores[j] && registry.instances[j].ruleidtbl == tables[j]
        {
          assert registry.instances[j].instanceId != instanceId;
        }
        registry.Restore(this, k, stores, tables, counter);
      }
    }

    /** `add_pattern`: escapes the pattern and adds its text; a text this
        instance already has gains a binding and counts as a duplicate, a new
        one becomes a pattern with the next rule id. */
    method AddPattern(pat: seq<byte>, desc: PatternDescriptor, user: Handle) returns (r: int)
      requires |pat| > 0
      requires registry.Valid() && this in registry.instances
      requires registry.patterns < RuleIdLimit - 1
      modifies this, registry
      ensures r == 0
      ensures pats == Add(old(pats), EscapedText(pat), desc, user, old(registry.patterns) + 1)
      ensures registry.Valid()
      ensures registry.instances == old(registry.instances)
      ensures registry.jobsSubmitted == old(registry.jobsSubmitted) && registry.matchLimit == old(registry.matchLimit)
      ensures old(Find(pats, EscapedText(pat))).Some? ==>
        ruleidtbl == old(ruleidtbl) &&
        registry.patterns == old(registry.patterns) && registry.maxPatternLen == old(registry.maxPatternLen) &&
        registry.duplicates == old(registry.duplicates) + 1
      ensures old(Find(pats, EscapedText(pat))).None? ==>
        ruleidtbl == old(ruleidtbl)[old(registry.patterns) + 1 := old(|pats|)] &&
        registry.patterns == old(registry.patterns) + 1 &&
        registry.maxPatternLen == (if |pat| > old(registry.maxPatternLen) then |pat| else old(registry.maxPatternLen)) &&
        registry.duplicates == old(registry.duplicates)
    {
      var pattern := EscapePattern(pat);
      Register(pattern.value, |pat|, desc, user);
      r := 0;
    }

    /** An instance of a valid registry has a well-formed store; `k` is its
        position. */
    lemma InstanceWellFormed() returns (k: nat)
      requires registry.Valid() && this in registry.instances
      ensures k < |registry.instances| && registry.instances[k] == this
      ensures Valid() && IdsIssued(pats, registry.patterns)
    {
      k :| 0 <= k < |registry.instances| && registry.instances[k] == this;
      assert registry.Stores()[k] == pats && registry.Tables()[k] == ruleidtbl;
    }

    /** The table resolves the rule id of each pattern to that pattern's
        bindings, and knows no other id. */
    lemma BindingsOfPatterns()
      requires Valid()
      ensures Bindings().Keys == IdSet(pats)
      ensures forall k :: 0 <= k < |pats| ==> Bindings()[pats[k].ruleid] == pats[k].userctx
    {
      forall id | id in IdSet(pats) ensures id in Bindings() {
        var k :| 0 <= k < |pats| && pats[k].ruleid == id;
        assert ruleidtbl[pats[k].ruleid] == k;
      }
      forall id | id in Bindings() ensures id in IdSet(pats) {
        assert pats[ruleidtbl[id]].ruleid == id;
      }
    }

    /** `user_ctor`: prepares, pattern by pattern, every binding; returns the
        agent calls made, in order. The texts, ids and table stay. */
    method UserCtor() returns (calls: seq<AgentCall>)
      requires Valid()
      modifies this
      ensures pats == Prepared(agent, old(pats))
      ensures ruleidtbl == old(ruleidtbl)
      ensures calls == StorePrepCalls(agent, old(pats))
      ensures Valid() && IdSet(pats) == old(IdSet(pats))
      ensures forall c :: IdsIssued(old(pats), c) ==> IdsIssued(pats, c)
    {
      PreparedStore(agent, pats, ruleidtbl);
      pats, calls := PrepareAll(agent, pats);
    }

    /** `prep_patterns`: runs `user_ctor` and reports success; the registry
        invariant still holds. */
    method PrepPatterns() returns (r: int, calls: seq<AgentCall>)
      requires registry.Valid() && this in registry.instances
      modifies this
      ensures r == 0
      ensures pats == Prepared(agent, old(pats)) && ruleidtbl == old(ruleidtbl)
      ensures calls == StorePrepCalls(agent, old(pats))
      ensures registry.Valid()
    {
      ghost var k := InstanceWellFormed();
      ghost var stores, tables := registry.Stores(), registry.Tables();
      calls := UserCtor();
      r := 0;
      assert registry.Valid() by {
        forall j | 0 <= j < |registry.instances| && j != k
          ensures registry.instances[j].pats == stores[j] && registry.instances[j].ruleidtbl == tables[j]
        {
          assert registry.instances[j].instanceId != instanceId;
        }
        registry.Restore(this, k, stores, tables, registry.patterns);
      }
    }

    /** `user_dtor`: the release calls for every binding of every pattern, in
        order. Nothing is changed. */
    method UserDtor() returns (calls: seq<AgentCall>)
      ensures calls == StoreDtorCalls(pats)
    {
      calls := [];
      var i := 0;
      while i < |pats|
        invariant 0 <= i <= |pats|
        invariant calls == StoreDtorCalls(pats[..i])
      {
        var pcalls := ReleaseBindings(pats[i].userctx);
        assert pats[..i + 1][..i] == pats[..i];
        calls := calls + pcalls;
        i := i + 1;
      }
      assert pats[..i] == pats;
    }

    /** The match loop of `rxp_search`: for each returned record, one host
        callback per binding of the pattern its rule id resolves to. */
    method Dispatch(resp: Response, pv: Handle) returns (callbacks: seq<Callback>)
      requires resp.matchCount <= |resp.matchData|
      requires Resolvable(Processed(resp), Bindings())
      ensures callbacks == SearchCallbacks(resp, Bindings(), pv)
    {
      ghost var recs := Processed(resp);
      ghost var table := Bindings();
      callbacks := [];
      var i := 0;
      while i < resp.matchCount
        invariant 0 <= i <= resp.matchCount
        invariant callbacks == Fanout(recs[..i], table, pv)
      {
        var rec := resp.matchData[i];
        var to := rec.startPtr + rec.length;
        assert recs[i] == rec;
        var cs := pats[ruleidtbl[rec.ruleId]].userctx;
        assert cs == table[rec.ruleId];
        var j := 0;
        while j < |cs|
          invariant 0 <= j <= |cs|
          invariant callbacks == Fanout(recs[..i], table, pv) + Hits(rec, cs, pv)[..j]
        {
          var c := cs[j];
          assert Hits(rec, cs, pv)[..j + 1] == Hits(rec, cs, pv)[..j] + [Callback(c.user, c.userTree, to, pv, c.userList)];
          callbacks := callbacks + [Callback(c.user, c.userTree, to, pv, c.userList)];
          j := j + 1;
        }
        assert Hits(rec, cs, pv)[..j] == Hits(rec, cs, pv);
        assert recs[..i + 1][..i] == recs[..i];
        i := i + 1;
      }
      assert recs[..i] == recs;
    }

    /** `rxp_search` with the device abstracted: truncates the length,
        submits a job with a fresh non-zero id, counts a match-limit overflow
        and dispatches the returned matches. The accelerator's decoded
        response is given as `resp`. */
    method Search(n: int, resp: Response, pv: Handle, maxJobLength: nat)
      returns (r: int, job: Job, truncated: bool, callbacks: seq<Callback>)
      requires resp.matchCount <= |resp.matchData|
      requires Resolvable(Processed(resp), Bindings())
      modifies registry
      ensures r == 0
      ensures truncated <==> n > maxJobLength
      ensures job.length == JobLength(n, maxJobLength)
      ensures job.id == old(registry.jobsSubmitted) + 1 && job.id != 0
      ensures job.subsets == [instanceId, instanceId, instanceId, instanceId]
      ensures registry.jobsSubmitted == old(registry.jobsSubmitted) + 1
      ensures registry.matchLimit == old(registry.matchLimit) + OverflowStep(resp)
      ensures callbacks == SearchCallbacks(resp, Bindings(), pv)
      ensures registry.duplicates == old(registry.duplicates) && registry.patterns == old(registry.patterns)
      ensures registry.maxPatternLen == old(registry.maxPatternLen) && registry.instances == old(registry.instances)
    {
      var len := n;
      truncated := false;
      if len > maxJobLength {
        truncated := true;
        len := maxJobLength;
      }
      registry.jobsSubmitted := registry.jobsSubmitted + 1;
      job := Job(registry.jobsSubmitted, len, [instanceId, instanceId, instanceId, instanceId]);
      callbacks := [];
      if resp.matchCount != 0 {
        if resp.detectedMatchCount > resp.matchCount {
          registry.matchLimit := registry.matchLimit + 1;
        }
        callbacks := Dispatch(resp, pv);
      }
      r := 0;
    }
  }

  /** Rule ids are unique across the whole process: two different patterns,
      of the same instance or of two instances, never carry the same id. */
  lemma RuleIdsUnique(reg: Registry, j: nat, a: nat, k: nat, b: nat)
    requires reg.Valid()
    requires j < |reg.instances| && a < |reg.instances[j].pats|
    requires k < |reg.instances| && b < |reg.instances[k].pats|
    requires j != k || a != b
    ensures reg.instances[j].pats[a].ruleid != reg.instances[k].pats[b].ruleid
  {
    var x, y := reg.instances[j], reg.instances[k];
    assert reg.Stores()[j] == x.pats && reg.Tables()[j] == x.ruleidtbl;
    assert reg.Stores()[k] == y.pats;
    assert x.pats[a].ruleid in IdSet(x.pats);
    assert y.pats[b].ruleid in IdSet(y.pats);
    if j < k {
      assert IdSet(x.pats) !! IdSet(y.pats);
    } else if k < j {
      assert IdSet(y.pats) !! IdSet(x.pats);
    }
  }
}
