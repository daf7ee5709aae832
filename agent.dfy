/** The per-registration user bindings of a pattern and the calls the adapter
    makes on the host's match agent to build and release their auxiliary
    structures. The agent itself is foreign code: what it builds is opaque,
    so its two builders are taken as functions from the user context and the
    structure built so far to the new structure, and every call is recorded
    in a trace. */
module MatchAgent {

  /** An opaque `void*` handle; `Null` is `nullptr`. */
  type Handle = nat

  const Null: Handle := 0

  /** `UserCtx`: the user context handle given at registration and the tree
      and list the agent builds for it. */
  datatype UserCtx = UserCtx(user: Handle, userTree: Handle, userList: Handle)

  /** The `UserCtx(void*)` constructor: no tree, no list yet. */
  function NewUserCtx(u: Handle): (c: UserCtx)
    ensures c.user == u && c.userTree == Null && c.userList == Null
  {
    UserCtx(u, Null, Null)
  }

  /** The agent's builders: `build_tree(sc, user, &tree)` and
      `negate_list(user, &list)` replace the structure they are pointed at. */
  datatype Agent = Agent(buildTree: (Handle, Handle) -> Handle, negateList: (Handle, Handle) -> Handle)

  /** One call made on the agent, with the arguments it received. */
  datatype AgentCall =
    | BuildTree(user: Handle, tree: Handle)
    | NegateList(user: Handle, list: Handle)
    | UserFree(user: Handle)
    | ListFree(list: Handle)
    | TreeFree(tree: Handle)

  /** The preparation of one binding of a pattern (negated or not): the new
      binding and the calls made, in order. */
  function PrepBinding(agent: Agent, negate: bool, c: UserCtx): (r: (UserCtx, seq<AgentCall>))
    ensures r.0.user == c.user
    ensures !(negate && c.user != Null) ==> r.0.userList == c.userList
    ensures |r.1| == if c.user != Null then 2 else 1
    ensures r.1[|r.1| - 1].BuildTree? && r.1[|r.1| - 1].user == Null
    ensures r.0.userTree == agent.buildTree(Null, r.1[|r.1| - 1].tree)
    ensures c.user != Null && negate ==>
      r.1[0] == NegateList(c.user, c.userList) && r.0.userList == agent.negateList(c.user, c.userList) &&
      r.1[1].tree == c.userTree
    ensures c.user != Null && !negate ==>
      r.1[0] == BuildTree(c.user, c.userTree) && r.1[1].tree == agent.buildTree(c.user, c.userTree)
    ensures c.user == Null ==> r.1[0].tree == c.userTree
  {
    var (c1, calls) :=
      if c.user != Null then
        if negate then
          (c.(userList := agent.negateList(c.user, c.userList)), [NegateList(c.user, c.userList)])
        else
          (c.(userTree := agent.buildTree(c.user, c.userTree)), [BuildTree(c.user, c.userTree)])
      else (c, []);
    (c1.(userTree := agent.buildTree(Null, c1.userTree)), calls + [BuildTree(Null, c1.userTree)])
  }

  /** The bindings of one pattern after preparation. */
  function PreparedBindings(agent: Agent, negate: bool, cs: seq<UserCtx>): (r: seq<UserCtx>)
    ensures |r| == |cs|
    ensures forall j :: 0 <= j < |cs| ==> r[j] == PrepBinding(agent, negate, cs[j]).0
  {
    seq(|cs|, j requires 0 <= j < |cs| => PrepBinding(agent, negate, cs[j]).0)
  }

  /** The calls made while preparing one pattern's bindings, binding by binding. */
  function PrepCalls(agent: Agent, negate: bool, cs: seq<UserCtx>): seq<AgentCall>
  {
    if |cs| == 0 then []
    else PrepCalls(agent, negate, cs[..|cs| - 1]) + PrepBinding(agent, negate, cs[|cs| - 1]).1
  }

  /** The calls `user_dtor` makes for one binding: each non-null handle is
      released once. */
  function FreeCalls(c: UserCtx): seq<AgentCall>
  {
    (if c.user != Null then [UserFree(c.user)] else []) +
    (if c.userList != Null then [ListFree(c.userList)] else []) +
    (if c.userTree != Null then [TreeFree(c.userTree)] else [])
  }

  /** The calls made while releasing one pattern's bindings, binding by binding. */
  function DtorCalls(cs: seq<UserCtx>): seq<AgentCall>
  {
    if |cs| == 0 then [] else DtorCalls(cs[..|cs| - 1]) + FreeCalls(cs[|cs| - 1])
  }

  /** Counting helpers for traces and bindings. */
  function CountCalls(calls: seq<AgentCall>, f: AgentCall -> bool): nat
  {
    if |calls| == 0 then 0
    else CountCalls(calls[..|calls| - 1], f) + (if f(calls[|calls| - 1]) then 1 else 0)
  }

  function CountBindings(cs: seq<UserCtx>, f: UserCtx -> bool): nat
  {
    if |cs| == 0 then 0
    else CountBindings(cs[..|cs| - 1], f) + (if f(cs[|cs| - 1]) then 1 else 0)
  }

  predicate IsNullBuild(a: AgentCall) { a.BuildTree? && a.user == Null }
  predicate IsUserBuild(a: AgentCall) { a.BuildTree? && a.user != Null }
  predicate IsNegate(a: AgentCall) { a.NegateList? }
  predicate IsUserFree(a: AgentCall) { a.UserFree? }
  predicate IsListFree(a: AgentCall) { a.ListFree? }
  predicate IsTreeFree(a: AgentCall) { a.TreeFree? }
  predicate HasUser(c: UserCtx) { c.user != Null }
  predicate HasList(c: UserCtx) { c.userList != Null }
  predicate HasTree(c: UserCtx) { c.userTree != Null }

  /** Releasing never passes a null handle to the agent. */
  predicate NoNullFree(calls: seq<AgentCall>)
  {
    forall k :: 0 <= k < |calls| ==>
      (calls[k].UserFree? ==> calls[k].user != Null) &&
      (calls[k].ListFree? ==> calls[k].list != Null) &&
      (calls[k].TreeFree? ==> calls[k].tree != Null)
  }

  lemma {:induction false} CountCallsAppend(a: seq<AgentCall>, b: seq<AgentCall>, f: AgentCall -> bool)
    ensures CountCalls(a + b, f) == CountCalls(a, f) + CountCalls(b, f)
    decreases |b|
  {
    if |b| == 0 {
      assert a + b == a;
    } else {
      assert (a + b)[..|a + b| - 1] == a + b[..|b| - 1];
      CountCallsAppend(a, b[..|b| - 1], f);
    }
  }

  lemma CountCallsTwo(x: AgentCall, y: AgentCall, f: AgentCall -> bool)
    ensures CountCalls([x, y], f) == (if f(x) then 1 else 0) + (if f(y) then 1 else 0)
  {
    assert [x, y] == [x] + [y];
    CountCallsAppend([x], [y], f);
    CountCallsOne(x, f);
    CountCallsOne(y, f);
  }

  lemma CountCallsOne(x: AgentCall, f: AgentCall -> bool)
    ensures CountCalls([x], f) == (if f(x) then 1 else 0)
  {
    assert [x][..0] == [];
  }

  /** Preparation makes one call per binding with a non-null user context plus a
      trailing null-context tree build for every binding: one null build per
      binding, one negate-list call per non-null binding of a negated pattern,
      one user-context tree build per non-null binding of a plain one. */
  lemma {:induction false} PrepCallsCounts(agent: Agent, negate: bool, cs: seq<UserCtx>)
    ensures |PrepCalls(agent, negate, cs)| == |cs| + CountBindings(cs, HasUser)
    ensures CountCalls(PrepCalls(agent, negate, cs), IsNullBuild) == |cs|
    ensures CountCalls(PrepCalls(agent, negate, cs), IsNegate) ==
      (if negate then CountBindings(cs, HasUser) else 0)
    ensures CountCalls(PrepCalls(agent, negate, cs), IsUserBuild) ==
      (if negate then 0 else CountBindings(cs, HasUser))
    decreases |cs|
  {
    if |cs| != 0 {
      var init, c := cs[..|cs| - 1], cs[|cs| - 1];
      PrepCallsCounts(agent, negate, init);
      var r := PrepBinding(agent, negate, c);
      forall f: AgentCall -> bool
        ensures CountCalls(PrepCalls(agent, negate, cs), f) ==
                CountCalls(PrepCalls(agent, negate, init), f) + CountCalls(r.1, f)
      {
        CountCallsAppend(PrepCalls(agent, negate, init), r.1, f);
      }
      if c.user != Null {
        assert r.1 == [r.1[0], r.1[1]];
        CountCallsTwo(r.1[0], r.1[1], IsNullBuild);
        CountCallsTwo(r.1[0], r.1[1], IsNegate);
        CountCallsTwo(r.1[0], r.1[1], IsUserBuild);
      } else {
        assert r.1 == [r.1[0]];
        CountCallsOne(r.1[0], IsNullBuild);
        CountCallsOne(r.1[0], IsNegate);
        CountCallsOne(r.1[0], IsUserBuild);
      }
    }
  }

  /** What one binding's release contributes to each count. */
  lemma FreeCallsCounts(c: UserCtx)
    ensures CountCalls(FreeCalls(c), IsUserFree) == (if HasUser(c) then 1 else 0)
    ensures CountCalls(FreeCalls(c), IsListFree) == (if HasList(c) then 1 else 0)
    ensures CountCalls(FreeCalls(c), IsTreeFree) == (if HasTree(c) then 1 else 0)
    ensures NoNullFree(FreeCalls(c))
  {
    var u: seq<AgentCall> := if c.user != Null then [UserFree(c.user)] else [];
    var l: seq<AgentCall> := if c.userList != Null then [ListFree(c.userList)] else [];
    var t: seq<AgentCall> := if c.userTree != Null then [TreeFree(c.userTree)] else [];
    assert FreeCalls(c) == u + l + t;
    forall f: AgentCall -> bool
      ensures CountCalls(FreeCalls(c), f) == CountCalls(u, f) + CountCalls(l, f) + CountCalls(t, f)
    {
      CountCallsAppend(u + l, t, f);
      CountCallsAppend(u, l, f);
    }
    if c.user != Null { CountCallsOne(UserFree(c.user), IsUserFree); CountCallsOne(UserFree(c.user), IsListFree); CountCallsOne(UserFree(c.user), IsTreeFree); }
    if c.userList != Null { CountCallsOne(ListFree(c.userList), IsUserFree); CountCallsOne(ListFree(c.userList), IsListFree); CountCallsOne(ListFree(c.userList), IsTreeFree); }
    if c.userTree != Null { CountCallsOne(TreeFree(c.userTree), IsUserFree); CountCallsOne(TreeFree(c.userTree), IsListFree); CountCallsOne(TreeFree(c.userTree), IsTreeFree); }
  }

  /** Teardown releases every non-null user context, list and tree exactly
      once, and never hands a null handle to the agent. */
  lemma {:induction false} DtorCallsCounts(cs: seq<UserCtx>)
    ensures CountCalls(DtorCalls(cs), IsUserFree) == CountBindings(cs, HasUser)
    ensures CountCalls(DtorCalls(cs), IsListFree) == CountBindings(cs, HasList)
    ensures CountCalls(DtorCalls(cs), IsTreeFree) == CountBindings(cs, HasTree)
    ensures NoNullFree(DtorCalls(cs))
    decreases |cs|
  {
    if |cs| != 0 {
      var init, c := cs[..|cs| - 1], cs[|cs| - 1];
      DtorCallsCounts(init);
      FreeCallsCounts(c);
      CountCallsAppend(DtorCalls(init), FreeCalls(c), IsUserFree);
      CountCallsAppend(DtorCalls(init), FreeCalls(c), IsListFree);
      CountCallsAppend(DtorCalls(init), FreeCalls(c), IsTreeFree);
    }
  }
}
