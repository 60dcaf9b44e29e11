/** `GuaranteedResultAnalysisBase::guaranteed`: a demand-driven query with a
    persistent cache.  The answer is membership in the greatest fixpoint of the
    local rules, on every run and whatever was queried before. */
module GuaranteedAnalysis {
  import opened Wrappers

  /** An SSA value. */
  type Value = nat

  datatype State = NotGuaranteed | Guaranteed | Pending | Unknown

  /** What one operation says about its result. */
  datatype Rule = Never | Always | IfAll(operands: seq<Value>)

  /** The program under analysis: constants, operation rules, the operands that
      are skipped, which values are results of an operation, and the attributes
      found in the program before the first query. */
  datatype Program = Program(
    constantCheck: Value -> Option<bool>,
    local: Value -> Rule,
    skipped: Value -> bool,
    hasOp: Value -> bool,
    given: map<Value, bool>)
  {
    /** The rule in force: given attributes first, constants next, then the operation. */
    ghost function Effective(v: Value): Rule {
      if v in given then (if given[v] then Always else Never)
      else match constantCheck(v)
           case Some(b) => if b then Always else Never
           case None => local(v)
    }

    /** Every member of S follows from members of S. */
    ghost predicate Supported(S: iset<Value>) {
      forall v | v in S :: SupportedBy(v, S)
    }

    ghost predicate SupportedBy(v: Value, S: iset<Value>) {
      match Effective(v)
      case Never => false
      case Always => true
      case IfAll(ops) => forall d | d in ops && !skipped(d) :: d in S
    }

    /** v is in the greatest fixpoint of the rules. */
    ghost predicate Holds(v: Value) {
      exists S: iset<Value> :: v in S && Supported(S)
    }

    /** U is closed under operands. */
    ghost predicate Closed(U: set<Value>) {
      forall v, d | v in U && Effective(v).IfAll? && d in Effective(v).operands :: d in U
    }
  }

  // ---------------------------------------------------------------- the fixpoint

  ghost function Fixpoint(g: Program): (G: iset<Value>)
    ensures forall v :: v in G <==> g.Holds(v)
  {
    iset v | g.Holds(v)
  }

  lemma FixpointSupported(g: Program)
    ensures g.Supported(Fixpoint(g))
  {
    forall v | g.Holds(v) ensures g.SupportedBy(v, Fixpoint(g)) {
      var S: iset<Value> :| v in S && g.Supported(S);
      assert g.SupportedBy(v, S);
      forall d | d in S ensures g.Holds(d) {}
    }
  }

  /** The greatest fixpoint is a fixpoint: a value holds exactly when its rule does. */
  lemma HoldsUnfold(g: Program, v: Value)
    ensures g.Holds(v) <==> g.SupportedBy(v, Fixpoint(g))
  {
    FixpointSupported(g);
    if g.SupportedBy(v, Fixpoint(g)) {
      var S := Fixpoint(g) + iset{v};
      assert g.Supported(S);
      assert v in S;
    }
  }

  /** It is the greatest: any set that supports itself together with values known to hold, holds. */
  lemma HoldsCoinduction(g: Program, S: set<Value>)
    requires forall v | v in S :: g.SupportedBy(v, Fixpoint(g) + (iset x | x in S))
    ensures forall v | v in S :: g.Holds(v)
  {
    var T := Fixpoint(g) + (iset x | x in S);
    FixpointSupported(g);
    assert g.Supported(T);
    forall v | v in S ensures g.Holds(v) { assert v in T; }
  }

  // ---------------------------------------------------------------- the state of one query

  ghost predicate Sound(g: Program, known: map<Value, bool>) {
    forall v | v in known :: known[v] == g.Holds(v)
  }

  /** The operands of u that count and are not known yet. */
  ghost function Unproved(g: Program, cache: map<Value, bool>, u: Value): (s: set<Value>)
    requires g.Effective(u).IfAll?
  {
    set d | d in g.Effective(u).operands && !g.skipped(d) && d !in cache
  }

  function Elements(s: seq<Value>): (r: set<Value>)
    ensures forall x :: x in r <==> x in s
  {
    set x | x in s
  }

  /** `todo`, `seen` (pending values and what they wait for), `reverseSeen` (who
      waits for a value), the three locals of a query. */
  datatype Query = Query(todo: seq<Value>, seen: map<Value, set<Value>>,
                         reverseSeen: map<Value, seq<Value>>)

  /** u waits for exactly its unproved operands, and none of the others is known to fail. */
  ghost predicate Waits(g: Program, cache: map<Value, bool>, u: Value, waiting: set<Value>) {
    && g.Effective(u).IfAll?
    && waiting == Unproved(g, cache, u)
    && (forall d | d in g.Effective(u).operands && !g.skipped(d) && d in cache :: cache[d])
  }

  /** The waiting lists say the same as the pending sets. */
  ghost predicate Linked(seen: map<Value, set<Value>>, reverseSeen: map<Value, seq<Value>>) {
    && (forall p, u | p in reverseSeen && u in reverseSeen[p] :: u in seen && p in seen[u])
    && (forall u, p | u in seen && p in seen[u] :: p in reverseSeen && u in reverseSeen[p])
  }

  /** Every undecided value but the root is waited for by a pending value of smaller rank. */
  ghost predicate Ranked(cache: map<Value, bool>, q: Query, root: Value, rank: map<Value, nat>) {
    && (forall x | (x in q.todo || x in q.seen) && x !in cache :: x in rank)
    && (forall x | x in rank && x != root && x !in cache :: WaitedFor(q, rank, x))
  }

  ghost predicate WaitedFor(q: Query, rank: map<Value, nat>, x: Value) {
    x in rank && exists u :: u in q.seen && u in rank && x in q.seen[u] && rank[u] < rank[x]
  }

  ghost predicate QueryInv(g: Program, U: set<Value>, cache: map<Value, bool>, q: Query, root: Value) {
    && Sound(g, cache)
    && (forall u | u in q.seen :: u !in cache && u in U && Waits(g, cache, u, q.seen[u]))
    && (forall u, d | u in q.seen && d in q.seen[u] :: d in q.todo || d in q.seen)
    && (forall x | x in q.todo :: x in U && (x in cache ==> cache[x]))
    && Linked(q.seen, q.reverseSeen)
    && (root in cache ==> cache[root]) && (root in q.todo || root in q.seen || root in cache)
  }

  /** A value all of whose counting operands are proved holds. */
  lemma NothingUnproved(g: Program, cache: map<Value, bool>, u: Value)
    requires Sound(g, cache) && Waits(g, cache, u, {})
    ensures g.Holds(u)
  {
    HoldsUnfold(g, u);
    forall d | d in g.Effective(u).operands && !g.skipped(d) ensures d in Fixpoint(g) {
      assert d !in Unproved(g, cache, u);
    }
  }

  /** A value waiting for one that fails, fails. */
  lemma WaiterFails(g: Program, u: Value, d: Value)
    requires g.Effective(u).IfAll? && d in g.Effective(u).operands && !g.skipped(d) && !g.Holds(d)
    ensures !g.Holds(u)
  {
    HoldsUnfold(g, u);
  }

  /** What the operands found in the cache say about v. */
  lemma OperandsDecide(g: Program, cache: map<Value, bool>, v: Value, st: State)
    requires Sound(g, cache) && g.Effective(v).IfAll?
    requires var ops := g.Effective(v).operands;
      && (st == NotGuaranteed ==> exists d :: d in ops && !g.skipped(d) && d in cache && !cache[d])
      && (st == Guaranteed ==> forall d | d in ops && !g.skipped(d) :: d in cache && cache[d])
    ensures st == NotGuaranteed ==> !g.Holds(v)
    ensures st == Guaranteed ==> g.Holds(v)
  {
    HoldsUnfold(g, v);
    if st == NotGuaranteed {
      var d :| d in g.Effective(v).operands && !g.skipped(d) && d in cache && !cache[d];
      WaiterFails(g, v, d);
    }
  }

  /** With nothing left to look at, everything pending holds, and so does the root. */
  lemma QueryDone(g: Program, U: set<Value>, cache: map<Value, bool>, q: Query, root: Value)
    requires QueryInv(g, U, cache, q, root) && q.todo == []
    ensures forall u | u in q.seen :: g.Holds(u)
    ensures g.Holds(root)
  {
    var T := Fixpoint(g) + (iset x | x in q.seen.Keys);
    forall u | u in q.seen ensures g.SupportedBy(u, T) {
      forall d | d in g.Effective(u).operands && !g.skipped(d) ensures d in T {
        if d !in cache { assert d in q.seen[u]; }
      }
    }
    HoldsCoinduction(g, q.seen.Keys);
  }

  /** Caching as failed a set that is closed under waiting and contains an
      undecided value reaches the root. */
  lemma {:induction false} RootReached(cache: map<Value, bool>, cache': map<Value, bool>, q: Query, root: Value,
                                       rank: map<Value, nat>, x: Value)
    requires Ranked(cache, q, root, rank) && x in rank && x !in cache && x in cache'
    requires forall u | u in q.seen :: u !in cache
    requires forall u, d | u in q.seen && d in q.seen[u] && d in cache' :: u in cache'
    ensures root in cache' && root !in cache
    decreases rank[x]
  {
    if x != root {
      assert WaitedFor(q, rank, x);
      var u :| u in q.seen && u in rank && x in q.seen[u] && rank[u] < rank[x];
      RootReached(cache, cache', q, root, rank, u);
    }
  }

  // ---------------------------------------------------------------- single steps on the query state

  /** The state while newly proved values are worked off: rtodo holds proved
      values that are not cached yet, among them every pending value that waits
      for nothing any more. */
  ghost predicate Proving(g: Program, U: set<Value>, cache: map<Value, bool>, q: Query, root: Value,
                          rank: map<Value, nat>, rtodo: seq<Value>) {
    && QueryInv(g, U, cache, q, root) && Ranked(cache, q, root, rank)
    && (forall x | x in rtodo :: x in U && g.Holds(x) && (x in q.seen ==> q.seen[x] == {}))
    && (forall u | u in q.seen && q.seen[u] == {} :: u in rtodo)
  }

  /** The pending sets after v is proved. */
  ghost predicate Released(seen: map<Value, set<Value>>, seen': map<Value, set<Value>>, v: Value) {
    seen'.Keys == seen.Keys - {v} && forall u | u in seen' :: seen'[u] == seen[u] - {v}
  }

  lemma ProveWaits(g: Program, cache: map<Value, bool>, u: Value, waiting: set<Value>, v: Value)
    requires Waits(g, cache, u, waiting)
    ensures Waits(g, cache[v := true], u, waiting - {v})
  {
    assert Unproved(g, cache[v := true], u) == Unproved(g, cache, u) - {v};
  }

  lemma ProveLinked(seen: map<Value, set<Value>>, rev: map<Value, seq<Value>>, v: Value, seen': map<Value, set<Value>>)
    requires Linked(seen, rev) && Released(seen, seen', v) && (v in seen ==> seen[v] == {})
    ensures Linked(seen', rev - {v})
  {
  }

  lemma ProveRanked(cache: map<Value, bool>, q: Query, root: Value, rank: map<Value, nat>,
                    v: Value, seen': map<Value, set<Value>>)
    requires Ranked(cache, q, root, rank) && Released(q.seen, seen', v) && (v in q.seen ==> q.seen[v] == {})
    ensures Ranked(cache[v := true], Query(q.todo, seen', q.reverseSeen - {v}), root, rank)
  {
    var q' := Query(q.todo, seen', q.reverseSeen - {v});
    forall x | x in rank && x != root && x !in cache[v := true] ensures WaitedFor(q', rank, x) {
      assert WaitedFor(q, rank, x);
      var u :| u in q.seen && u in rank && x in q.seen[u] && rank[u] < rank[x];
      assert u in q'.seen && x in q'.seen[u];
    }
  }

  lemma ProveQuery(g: Program, U: set<Value>, cache: map<Value, bool>, q: Query, root: Value,
                   v: Value, seen': map<Value, set<Value>>)
    requires QueryInv(g, U, cache, q, root) && g.Holds(v) && v !in cache
    requires Released(q.seen, seen', v) && (v in q.seen ==> q.seen[v] == {})
    ensures QueryInv(g, U, cache[v := true], Query(q.todo, seen', q.reverseSeen - {v}), root)
  {
    ProveLinked(q.seen, q.reverseSeen, v, seen');
    forall u | u in seen' ensures Waits(g, cache[v := true], u, seen'[u]) {
      ProveWaits(g, cache, u, q.seen[u], v);
    }
  }

  lemma ProveStep(g: Program, U: set<Value>, cache: map<Value, bool>, q: Query, root: Value,
                  rank: map<Value, nat>, rtodo: seq<Value>, v: Value, seen': map<Value, set<Value>>, rtodo': seq<Value>)
    requires Proving(g, U, cache, q, root, rank, rtodo) && v in rtodo && v !in cache
    requires Released(q.seen, seen', v)
    requires forall x | x in rtodo' :: x in rtodo || (x in seen' && seen'[x] == {})
    requires forall x | x in rtodo && x != v :: x in rtodo'
    requires forall u | u in seen' && seen'[u] == {} && q.seen[u] != {} :: u in rtodo'
    ensures Proving(g, U, cache[v := true], Query(q.todo, seen', q.reverseSeen - {v}), root, rank, rtodo')
  {
    ProveQuery(g, U, cache, q, root, v, seen');
    ProveRanked(cache, q, root, rank, v, seen');
    forall x | x in rtodo' && x !in rtodo ensures g.Holds(x) {
      NothingUnproved(g, cache[v := true], x);
    }
  }

  /** The front of the queue can be forgotten once it is decided or pending. */
  lemma PopKeeps(g: Program, U: set<Value>, cache: map<Value, bool>, q: Query, root: Value, rank: map<Value, nat>)
    requires QueryInv(g, U, cache, q, root) && Ranked(cache, q, root, rank) && q.todo != []
    requires q.todo[0] in cache || q.todo[0] in q.seen
    ensures QueryInv(g, U, cache, q.(todo := q.todo[1..]), root) && Ranked(cache, q.(todo := q.todo[1..]), root, rank)
  {
    var q' := q.(todo := q.todo[1..]);
    forall u, d | u in q'.seen && d in q'.seen[u] ensures d in q'.todo || d in q'.seen {
      assert d !in cache;
    }
    forall x | x in rank && x != root && x !in cache ensures WaitedFor(q', rank, x) { assert WaitedFor(q, rank, x); }
  }

  /** The waiting lists after cur starts to wait for the values of deps. */
  ghost predicate WaiterAdded(rev: map<Value, seq<Value>>, rev': map<Value, seq<Value>>, cur: Value, deps: seq<Value>) {
    && (forall p :: p in rev' <==> p in rev || p in deps)
    && (forall p, u | p in rev' :: u in rev'[p] <==> (p in rev && u in rev[p]) || (u == cur && p in deps))
  }

  ghost function RankWith(rank: map<Value, nat>, cur: Value, deps: seq<Value>): (r: map<Value, nat>)
    requires cur in rank
  {
    map d | d in rank.Keys + Elements(deps) :: if d in rank then rank[d] else rank[cur] + 1
  }

  lemma PendLinked(seen: map<Value, set<Value>>, rev: map<Value, seq<Value>>, cur: Value, deps: seq<Value>,
                   rev': map<Value, seq<Value>>)
    requires Linked(seen, rev) && cur !in seen && WaiterAdded(rev, rev', cur, deps)
    ensures Linked(seen[cur := Elements(deps)], rev')
  {
  }

  lemma PendRanked(cache: map<Value, bool>, q: Query, root: Value, rank: map<Value, nat>,
                   deps: seq<Value>, rev': map<Value, seq<Value>>)
    requires Ranked(cache, q, root, rank) && q.todo != [] && q.todo[0] !in cache && q.todo[0] !in q.seen
    ensures var cur := q.todo[0];
      var q' := Query(q.todo[1..] + deps, q.seen[cur := Elements(deps)], rev');
      cur in rank && Ranked(cache, q', root, RankWith(rank, cur, deps))
  {
    var cur := q.todo[0];
    var q' := Query(q.todo[1..] + deps, q.seen[cur := Elements(deps)], rev');
    var rank' := RankWith(rank, cur, deps);
    forall x | x in rank' && x != root && x !in cache ensures WaitedFor(q', rank', x) {
      if x in rank {
        assert WaitedFor(q, rank, x);
        var u :| u in q.seen && u in rank && x in q.seen[u] && rank[u] < rank[x];
        assert u in q'.seen && u in rank' && x in q'.seen[u] && rank'[u] < rank'[x];
      } else {
        assert cur in q'.seen && cur in rank' && x in q'.seen[cur] && rank'[cur] < rank'[x];
      }
    }
  }

  lemma PendQuery(g: Program, U: set<Value>, cache: map<Value, bool>, q: Query, root: Value,
                  deps: seq<Value>, rev': map<Value, seq<Value>>)
    requires g.Closed(U) && QueryInv(g, U, cache, q, root) && q.todo != []
    requires var cur := q.todo[0];
      && cur !in cache && cur !in q.seen
      && Waits(g, cache, cur, Elements(deps))
      && WaiterAdded(q.reverseSeen, rev', cur, deps)
    ensures var cur := q.todo[0];
      QueryInv(g, U, cache, Query(q.todo[1..] + deps, q.seen[cur := Elements(deps)], rev'), root)
  {
    var cur := q.todo[0];
    var W := Elements(deps);
    PendLinked(q.seen, q.reverseSeen, cur, deps, rev');
    forall x | x in deps ensures x in U && x !in cache { assert x in W && x in Unproved(g, cache, cur); }
  }

  /** The state while failed values are worked off: C is the cache before, and
      the waiters of every value cached since are cached or queued. */
  ghost predicate Refuting(g: Program, U: set<Value>, C: map<Value, bool>, cache: map<Value, bool>,
                           seen: map<Value, set<Value>>, reverseSeen0: map<Value, seq<Value>>,
                           reverseSeen: map<Value, seq<Value>>, rtodo: seq<Value>) {
    && (forall u | u in seen :: u in U && Waits(g, C, u, seen[u])) && Linked(seen, reverseSeen0)
    && (forall x | x in rtodo :: x in U && !g.Holds(x))
    && (forall p | p in reverseSeen :: p in reverseSeen0 && reverseSeen[p] == reverseSeen0[p])
    && (forall p | p in reverseSeen0 && p !in reverseSeen :: p in cache)
    && (forall x | x in cache && x !in C :: !cache[x])
    && (forall p, u | p in cache && p !in C && p in reverseSeen0 && u in reverseSeen0[p] :: u in cache || u in rtodo)
  }

  lemma RefutingStart(g: Program, U: set<Value>, C: map<Value, bool>, q: Query, root: Value, cur: Value)
    requires QueryInv(g, U, C, q, root) && cur in U && !g.Holds(cur)
    ensures Refuting(g, U, C, C, q.seen, q.reverseSeen, q.reverseSeen, [cur])
  {
  }

  lemma RefuteStep(g: Program, U: set<Value>, C: map<Value, bool>, cache: map<Value, bool>,
                   seen: map<Value, set<Value>>, reverseSeen0: map<Value, seq<Value>>,
                   reverseSeen: map<Value, seq<Value>>, rtodo: seq<Value>, v: Value)
    requires Refuting(g, U, C, cache, seen, reverseSeen0, reverseSeen, rtodo + [v]) && v !in cache
    ensures v in U && !g.Holds(v)
    ensures v !in reverseSeen ==>
      Refuting(g, U, C, cache[v := false], seen, reverseSeen0, reverseSeen, rtodo)
    ensures v in reverseSeen ==>
      Refuting(g, U, C, cache[v := false], seen, reverseSeen0, reverseSeen - {v}, rtodo + reverseSeen[v])
  {
    hide Waits, Linked, Fixpoint;
    assert v in rtodo + [v];
    if v in reverseSeen { WaitersFail(g, U, C, cache, seen, reverseSeen0, reverseSeen, rtodo, v); }
  }

  lemma WaitersFail(g: Program, U: set<Value>, C: map<Value, bool>, cache: map<Value, bool>,
                    seen: map<Value, set<Value>>, reverseSeen0: map<Value, seq<Value>>,
                    reverseSeen: map<Value, seq<Value>>, rtodo: seq<Value>, v: Value)
    requires Refuting(g, U, C, cache, seen, reverseSeen0, reverseSeen, rtodo + [v]) && v !in cache && v in reverseSeen
    ensures forall u | u in reverseSeen[v] :: u in U && !g.Holds(u)
  {
    assert v in rtodo + [v];
    forall u | u in reverseSeen[v] ensures u in U && !g.Holds(u) {
      assert u in seen && v in seen[u];
      WaiterFails(g, u, v);
    }
  }

  lemma RefutingPop(g: Program, U: set<Value>, C: map<Value, bool>, cache: map<Value, bool>,
                    seen: map<Value, set<Value>>, reverseSeen0: map<Value, seq<Value>>,
                    reverseSeen: map<Value, seq<Value>>, rtodo: seq<Value>, x: Value)
    requires Refuting(g, U, C, cache, seen, reverseSeen0, reverseSeen, rtodo + [x])
    ensures x in U
    ensures x in cache ==> Refuting(g, U, C, cache, seen, reverseSeen0, reverseSeen, rtodo)
  {
    assert x in rtodo + [x];
  }

  /** With nothing queued, whoever waits for a cached value is cached. */
  lemma RefutingDone(g: Program, U: set<Value>, C: map<Value, bool>, cache: map<Value, bool>,
                     seen: map<Value, set<Value>>, reverseSeen0: map<Value, seq<Value>>, reverseSeen: map<Value, seq<Value>>)
    requires Refuting(g, U, C, cache, seen, reverseSeen0, reverseSeen, [])
    ensures forall u, d | u in seen && d in seen[u] && d in cache :: u in cache
    ensures forall x | x in cache && x !in C :: !cache[x]
  {
    forall u, d | u in seen && d in seen[u] && d in cache ensures u in cache {
      assert d in Unproved(g, C, u) && u in reverseSeen0[d];
    }
  }

  /** The waiters of a value about to be proved are pending, and it is not one of them. */
  lemma WaitersPending(seen: map<Value, set<Value>>, reverseSeen: map<Value, seq<Value>>, v: Value)
    requires Linked(seen, reverseSeen) && v in reverseSeen && (v in seen ==> seen[v] == {})
    ensures forall u | u in reverseSeen[v] :: u in seen && u != v && v in seen[u]
  {
  }

  lemma ProvingStart(g: Program, U: set<Value>, cache: map<Value, bool>, q: Query, root: Value,
                     rank: map<Value, nat>, cur: Value)
    requires Going(g, U, cache, q, root, rank) && cur in U && g.Holds(cur) && cur !in q.seen
    ensures Proving(g, U, cache, q, root, rank, [cur])
  {
  }

  lemma ProvingPop(g: Program, U: set<Value>, cache: map<Value, bool>, q: Query, root: Value,
                   rank: map<Value, nat>, rtodo: seq<Value>, x: Value)
    requires Proving(g, U, cache, q, root, rank, rtodo + [x])
    ensures x in U
    ensures x in cache ==> Proving(g, U, cache, q, root, rank, rtodo)
  {
    assert x in rtodo + [x];
  }

  lemma ProvingDone(g: Program, U: set<Value>, cache: map<Value, bool>, q: Query, root: Value, rank: map<Value, nat>)
    requires Proving(g, U, cache, q, root, rank, [])
    ensures Going(g, U, cache, q, root, rank)
  {
  }

  /** The invariant of the main loop. */
  ghost predicate Going(g: Program, U: set<Value>, cache: map<Value, bool>, q: Query, root: Value,
                        rank: map<Value, nat>) {
    QueryInv(g, U, cache, q, root) && Ranked(cache, q, root, rank) && forall u | u in q.seen :: q.seen[u] != {}
  }

  lemma GoingStart(g: Program, U: set<Value>, cache: map<Value, bool>, root: Value)
    requires Sound(g, cache) && root in U && root !in cache
    ensures Going(g, U, cache, Query([root], map[], map[]), root, map[root := 0])
  {
    assert Ranked(cache, Query([root], map[], map[]), root, map[root := 0]);
  }

  lemma FrontInU(g: Program, U: set<Value>, cache: map<Value, bool>, q: Query, root: Value, rank: map<Value, nat>)
    requires Going(g, U, cache, q, root, rank) && q.todo != []
    ensures q.todo[0] in U
  {
    assert q.todo[0] in q.todo;
  }

  lemma PopGoing(g: Program, U: set<Value>, cache: map<Value, bool>, q: Query, root: Value, rank: map<Value, nat>)
    requires Going(g, U, cache, q, root, rank) && q.todo != []
    requires q.todo[0] in cache || q.todo[0] in q.seen
    ensures Going(g, U, cache, q.(todo := q.todo[1..]), root, rank)
  {
    PopKeeps(g, U, cache, q, root, rank);
  }

  lemma GoingDone(g: Program, U: set<Value>, cache: map<Value, bool>, q: Query, root: Value, rank: map<Value, nat>)
    requires Going(g, U, cache, q, root, rank) && q.todo == []
    ensures forall u | u in q.seen :: g.Holds(u) && u !in cache
    ensures g.Holds(root) && (root in cache || root in q.seen)
  {
    QueryDone(g, U, cache, q, root);
  }

  // ---------------------------------------------------------------- the analysis object

  lemma Shrinks(U: set<Value>, K: set<Value>, K': set<Value>, x: Value)
    requires K <= K' && x in U && x !in K && x in K'
    ensures U - K' < U - K
  {
    assert x in U - K && x !in U - K';
  }

  lemma PendGoing(g: Program, U: set<Value>, cache: map<Value, bool>, q: Query, root: Value, rank: map<Value, nat>,
                  deps: seq<Value>, rev': map<Value, seq<Value>>)
    requires g.Closed(U) && Going(g, U, cache, q, root, rank) && q.todo != [] && deps != []
    requires q.todo[0] !in cache && q.todo[0] !in q.seen
    requires Waits(g, cache, q.todo[0], Elements(deps))
    requires WaiterAdded(q.reverseSeen, rev', q.todo[0], deps)
    ensures q.todo[0] in rank
    ensures Going(g, U, cache, Query(q.todo[1..] + deps, q.seen[q.todo[0] := Elements(deps)], rev'), root,
                  RankWith(rank, q.todo[0], deps))
  {
    hide QueryInv, Ranked, Waits, WaiterAdded;
    PendRanked(cache, q, root, rank, deps, rev');
    PendQuery(g, U, cache, q, root, deps, rev');
    assert deps[0] in Elements(deps);
  }

  /** Nothing remembered is forgotten or changed. */
  predicate Extends(m: map<Value, bool>, m': map<Value, bool>) {
    forall x | x in m :: x in m' && m'[x] == m[x]
  }

  class Analysis {
    const program: Program
    /** `valueCache` */
    var cache: map<Value, bool>
    /** The attributes currently in the program. */
    var attrs: map<Value, bool>

    /** Everything remembered agrees with the greatest fixpoint. */
    ghost predicate Valid()
      reads this
    {
      Sound(program, cache) && Sound(program, attrs) && program.given.Keys <= attrs.Keys
    }

    constructor (program: Program)
      ensures Valid() && this.program == program && cache == map[] && attrs == program.given
    {
      this.program := program;
      cache, attrs := map[], program.given;
      new;
      forall v | v in program.given ensures program.given[v] == program.Holds(v) { HoldsUnfold(program, v); }
    }

    /** Every value that has failed since then carries the attribute, if it can. */
    ghost predicate Recorded(before: map<Value, bool>)
      reads this
    {
      forall x | x in cache && x !in before && !cache[x] && program.hasOp(x) :: x in attrs
    }

    /** `setGuaranteedInIR`: only results of operations carry the attribute. */
    method SetInIR(v: Value, b: bool)
      requires Sound(program, attrs) && program.given.Keys <= attrs.Keys && b == program.Holds(v)
      modifies this`attrs
      ensures Sound(program, attrs) && program.given.Keys <= attrs.Keys
      ensures attrs == if program.hasOp(v) then old(attrs)[v := b] else old(attrs)
    {
      if program.hasOp(v) {
        attrs := attrs[v := b];
      }
    }

    /** `recursivelyCheckOperands` */
    method CheckOperands(ops: seq<Value>) returns (st: State, localtodo: seq<Value>)
      ensures st != Unknown
      ensures st == NotGuaranteed ==> exists d :: d in ops && !program.skipped(d) && d in cache && !cache[d]
      ensures st != NotGuaranteed ==> forall d | d in ops && !program.skipped(d) && d in cache :: cache[d]
      ensures st != NotGuaranteed ==>
        forall d :: d in localtodo <==> d in ops && !program.skipped(d) && d !in cache
      ensures st != NotGuaranteed ==> (st == Guaranteed <==> localtodo == [])
    {
      var allGuaranteed := true;
      localtodo := [];
      for i := 0 to |ops|
        invariant forall d | d in ops[..i] && !program.skipped(d) && d in cache :: cache[d]
        invariant forall d :: d in localtodo <==> d in ops[..i] && !program.skipped(d) && d !in cache
        invariant allGuaranteed <==> localtodo == []
      {
        var operand := ops[i];
        assert ops[..i + 1] == ops[..i] + [operand];
        if program.skipped(operand) {
          continue;
        }
        if operand in cache {
          if cache[operand] {
            continue;
          }
          return NotGuaranteed, localtodo;
        }
        localtodo := localtodo + [operand];
        allGuaranteed := false;
      }
      assert ops[..|ops|] == ops;
      st := if allGuaranteed then Guaranteed else Pending;
    }

    /** `localGuaranteedWithSetAttr`: the attribute, else the constant, else the operation decides. */
    method LocalWithSetAttr(v: Value) returns (st: State, localtodo: seq<Value>)
      requires Valid()
      modifies this`attrs
      ensures Valid() && st != Unknown
      ensures st == Guaranteed ==> program.Holds(v)
      ensures st == NotGuaranteed ==> !program.Holds(v)
      ensures st == Pending ==> localtodo != [] && Waits(program, cache, v, Elements(localtodo))
      ensures old(attrs.Keys) <= attrs.Keys <= old(attrs.Keys) + {v} && forall x | x in old(attrs) && x != v :: x in attrs && attrs[x] == old(attrs[x])
      ensures program.hasOp(v) && st != Pending ==> v in attrs
    {
      localtodo := [];
      if v in attrs {
        return if attrs[v] then Guaranteed else NotGuaranteed, [];
      }
      HoldsUnfold(program, v);
      // guaranteedConstant
      if v in cache {
        st := if cache[v] then Guaranteed else NotGuaranteed;
        SetInIR(v, cache[v]);
        return;
      }
      match program.constantCheck(v) {
        case Some(b) =>
          st := if b then Guaranteed else NotGuaranteed;
          SetInIR(v, b);
          return;
        case None =>
      }
      match program.local(v) {
        case Never => st := NotGuaranteed;
        case Always => st := Guaranteed;
        case IfAll(ops) =>
          st, localtodo := CheckOperands(ops);
          assert st == Guaranteed ==> forall d | d in ops && !program.skipped(d) :: d in cache by {
            assert st == Guaranteed ==> forall d | d in ops && !program.skipped(d) :: d in localtodo || d in cache;
          }
          OperandsDecide(program, cache, v, st);
      }
      if st != Pending {
        SetInIR(v, st == Guaranteed);
      }
    }

    /** One waiting list is worked off: v leaves the pending sets of its waiters,
        and waiters left with nothing to wait for are queued. */
    method Release(seen: map<Value, set<Value>>, waiters: seq<Value>, v: Value, rtodo: seq<Value>)
      returns (seen': map<Value, set<Value>>, rtodo': seq<Value>)
      requires forall u | u in waiters :: u in seen
      ensures seen'.Keys == seen.Keys
      ensures forall u | u in seen :: seen'[u] == if u in waiters then seen[u] - {v} else seen[u]
      ensures forall x | x in rtodo :: x in rtodo'
      ensures forall x | x in rtodo' :: x in rtodo || (x in waiters && seen'[x] == {})
      ensures forall u | u in waiters && seen'[u] == {} :: u in rtodo'
    {
      seen', rtodo' := seen, rtodo;
      for i := 0 to |waiters|
        invariant seen'.Keys == seen.Keys
        invariant forall u | u in seen :: seen'[u] == if u in waiters[..i] then seen[u] - {v} else seen[u]
        invariant forall x | x in rtodo :: x in rtodo'
        invariant forall x | x in rtodo' :: x in rtodo || (x in waiters && seen'[x] == {})
        invariant forall u | u in waiters[..i] && seen'[u] == {} :: u in rtodo'
      {
        var next := waiters[i];
        assert next in seen';
        assert waiters[..i + 1] == waiters[..i] + [next];
        seen' := seen'[next := seen'[next] - {v}];
        if seen'[next] == {} {
          rtodo' := rtodo' + [next];
        }
      }
      assert waiters[..|waiters|] == waiters;
    }

    /** One proved value that is not cached yet: it is cached, and its waiting list worked off. */
    method ProveOne(ghost U: set<Value>, ghost todo: seq<Value>, seen: map<Value, set<Value>>,
                    reverseSeen: map<Value, seq<Value>>, ghost root: Value, ghost rank: map<Value, nat>,
                    rtodo: seq<Value>, rcur: Value)
      returns (seen': map<Value, set<Value>>, reverseSeen': map<Value, seq<Value>>, rtodo': seq<Value>)
      requires Proving(program, U, cache, Query(todo, seen, reverseSeen), root, rank, rtodo + [rcur]) && rcur !in cache
      modifies this`cache
      ensures cache == old(cache)[rcur := true] && seen'.Keys == seen.Keys - {rcur}
      ensures Proving(program, U, cache, Query(todo, seen', reverseSeen'), root, rank, rtodo')
      ensures forall x | x in rtodo :: x in rtodo'
    {
      ghost var C := cache;
      assert rcur in rtodo + [rcur];
      cache := cache[rcur := true];
      seen', reverseSeen', rtodo' := ReleaseValue(seen, reverseSeen, rcur, rtodo);
      ProveStep(program, U, C, Query(todo, seen, reverseSeen), root, rank, rtodo + [rcur], rcur, seen', rtodo');
    }

    /** A proved value leaves the pending values, and its waiting list is worked off. */
    method ReleaseValue(seen: map<Value, set<Value>>, reverseSeen: map<Value, seq<Value>>, v: Value, rtodo: seq<Value>)
      returns (seen': map<Value, set<Value>>, reverseSeen': map<Value, seq<Value>>, rtodo': seq<Value>)
      requires Linked(seen, reverseSeen) && (v in seen ==> seen[v] == {})
      ensures Released(seen, seen', v) && reverseSeen' == reverseSeen - {v}
      ensures forall x | x in rtodo' :: x in rtodo || (x in seen' && seen'[x] == {})
      ensures forall x | x in rtodo :: x in rtodo'
      ensures forall u | u in seen' && seen'[u] == {} && seen[u] != {} :: u in rtodo'
    {
      seen', reverseSeen', rtodo' := seen - {v}, reverseSeen, rtodo;
      if v in reverseSeen {
        WaitersPending(seen, reverseSeen, v);
        seen', rtodo' := Release(seen', reverseSeen[v], v, rtodo);
        reverseSeen' := reverseSeen - {v};
      }
    }

    /** The `GUARANTEED` case: cur and every pending value that is proved by it are cached as true. */
    method ProveFrom(ghost U: set<Value>, ghost todo: seq<Value>, seen0: map<Value, set<Value>>,
                     reverseSeen0: map<Value, seq<Value>>, ghost root: Value, ghost rank: map<Value, nat>, cur: Value)
      returns (seen: map<Value, set<Value>>, reverseSeen: map<Value, seq<Value>>)
      requires cur in U && program.Holds(cur) && cur !in seen0
      requires Going(program, U, cache, Query(todo, seen0, reverseSeen0), root, rank)
      modifies this`cache
      ensures cur in cache && Extends(old(cache), cache)
      ensures forall x | x in cache && x !in old(cache) :: cache[x]
      ensures cache.Keys + seen.Keys >= old(cache.Keys) + seen0.Keys
      ensures Going(program, U, cache, Query(todo, seen, reverseSeen), root, rank)
    {
      hide Proving, Going, QueryInv;
      seen, reverseSeen := seen0, reverseSeen0;
      var rtodo := [cur];
      ProvingStart(program, U, cache, Query(todo, seen, reverseSeen), root, rank, cur);
      while rtodo != []
        invariant Proving(program, U, cache, Query(todo, seen, reverseSeen), root, rank, rtodo)
        invariant cur in cache || cur in rtodo
        invariant Extends(old(cache), cache) && cache.Keys + seen.Keys >= old(cache.Keys) + seen0.Keys
        invariant forall x | x in cache && x !in old(cache) :: cache[x]
        decreases U - cache.Keys, |rtodo|
      {
        ghost var before, C := rtodo, cache;
        var rcur := rtodo[|rtodo| - 1];
        rtodo := rtodo[..|rtodo| - 1];
        assert before == rtodo + [rcur];
        ProvingPop(program, U, cache, Query(todo, seen, reverseSeen), root, rank, rtodo, rcur);
        if rcur in cache {
          continue;
        }
        seen, reverseSeen, rtodo := ProveOne(U, todo, seen, reverseSeen, root, rank, rtodo, rcur);
        Shrinks(U, C.Keys, cache.Keys, rcur);
      }
      ProvingDone(program, U, cache, Query(todo, seen, reverseSeen), root, rank);
    }

    /** One value that fails and is not cached yet: it is cached, and its waiters are queued. */
    method RefuteOne(ghost U: set<Value>, ghost C: map<Value, bool>, ghost seen: map<Value, set<Value>>,
                     ghost reverseSeen0: map<Value, seq<Value>>, reverseSeen: map<Value, seq<Value>>,
                     rtodo: seq<Value>, rcur: Value)
      returns (reverseSeen': map<Value, seq<Value>>, rtodo': seq<Value>)
      requires Valid() && Refuting(program, U, C, cache, seen, reverseSeen0, reverseSeen, rtodo + [rcur])
      requires rcur !in cache
      modifies this`cache, this`attrs
      ensures Valid() && cache == old(cache)[rcur := false] && attrs.Keys >= old(attrs.Keys) && rcur in U
      ensures program.hasOp(rcur) ==> rcur in attrs
      ensures Refuting(program, U, C, cache, seen, reverseSeen0, reverseSeen', rtodo')
      ensures forall x | x in rtodo :: x in rtodo'
    {
      hide Refuting;
      RefuteStep(program, U, C, cache, seen, reverseSeen0, reverseSeen, rtodo, rcur);
      reverseSeen', rtodo' := reverseSeen, rtodo;
      cache := cache[rcur := false];
      SetInIR(rcur, false);
      if rcur in reverseSeen {
        rtodo' := rtodo + reverseSeen[rcur];
        reverseSeen' := reverseSeen - {rcur};
      }
    }

    /** The `NOTGUARANTEED` case: cur and everything that waits for it, directly
        or not, is cached as false. */
    method RefuteFrom(ghost U: set<Value>, ghost todo: seq<Value>, ghost seen: map<Value, set<Value>>,
                      reverseSeen0: map<Value, seq<Value>>, ghost root: Value, cur: Value)
      requires Valid() && cur in U && !program.Holds(cur)
      requires QueryInv(program, U, cache, Query(todo, seen, reverseSeen0), root)
      modifies this`cache, this`attrs
      ensures Valid() && cur in cache && Extends(old(cache), cache) && attrs.Keys >= old(attrs.Keys)
      ensures forall u, d | u in seen && d in seen[u] && d in cache :: u in cache
      ensures forall x | x in cache && x !in old(cache) :: !cache[x]
      ensures Recorded(old(cache))
    {
      hide Refuting, QueryInv;
      ghost var C := cache;
      var reverseSeen := reverseSeen0;
      var rtodo := [cur];
      RefutingStart(program, U, C, Query(todo, seen, reverseSeen0), root, cur);
      while rtodo != []
        invariant Valid() && Extends(C, cache) && attrs.Keys >= old(attrs.Keys) && Recorded(C)
        invariant cur in cache || cur in rtodo
        invariant Refuting(program, U, C, cache, seen, reverseSeen0, reverseSeen, rtodo)
        decreases U - cache.Keys, |rtodo|
      {
        ghost var before, K := rtodo, cache.Keys;
        var rcur := rtodo[|rtodo| - 1];
        rtodo := rtodo[..|rtodo| - 1];
        assert before == rtodo + [rcur];
        RefutingPop(program, U, C, cache, seen, reverseSeen0, reverseSeen, rtodo, rcur);
        if rcur in cache {
          continue;
        }
        reverseSeen, rtodo := RefuteOne(U, C, seen, reverseSeen0, reverseSeen, rtodo, rcur);
        Shrinks(U, K, cache.Keys, rcur);
      }
      RefutingDone(program, U, C, cache, seen, reverseSeen0, reverseSeen);
    }

    /** The `PENDING` case: cur starts to wait for deps, which are queued. */
    method WaitFor(todo: seq<Value>, reverseSeen: map<Value, seq<Value>>, cur: Value, deps: seq<Value>)
      returns (todo': seq<Value>, reverseSeen': map<Value, seq<Value>>)
      ensures todo' == todo + deps && WaiterAdded(reverseSeen, reverseSeen', cur, deps)
    {
      todo', reverseSeen' := todo, reverseSeen;
      for i := 0 to |deps|
        invariant todo' == todo + deps[..i] && WaiterAdded(reverseSeen, reverseSeen', cur, deps[..i])
      {
        var v := deps[i];
        assert deps[..i + 1] == deps[..i] + [v];
        var waiters := if v in reverseSeen' then reverseSeen'[v] else [];
        reverseSeen' := reverseSeen'[v := waiters + [cur]];
        todo' := todo' + [v];
      }
      assert deps[..|deps|] == deps;
    }

    /** The end of a query: every value still pending is proved. */
    method MarkSeen(seen: map<Value, set<Value>>)
      requires Valid() && forall u | u in seen :: program.Holds(u) && u !in cache
      modifies this`cache, this`attrs
      ensures Valid() && Extends(old(cache), cache) && attrs.Keys >= old(attrs.Keys)
      ensures cache.Keys == old(cache.Keys) + seen.Keys && cache == old(cache) + map u | u in seen :: true
      ensures forall u | u in seen && program.hasOp(u) :: u in attrs
    {
      var rest := seen.Keys;
      while rest != {}
        invariant rest <= seen.Keys && Valid() && Extends(old(cache), cache) && attrs.Keys >= old(attrs.Keys)
        invariant cache.Keys == old(cache.Keys) + (seen.Keys - rest)
        invariant forall u | u in seen && u !in rest :: cache[u] && (program.hasOp(u) ==> u in attrs)
        decreases rest
      {
        var u :| u in rest;
        cache := cache[u := true];
        SetInIR(u, true);
        rest := rest - {u};
      }
    }

    /** The front of the queue fails: so does everything waiting for it, down to the root. */
    method VisitFailed(ghost U: set<Value>, ghost q: Query, reverseSeen: map<Value, seq<Value>>,
                       ghost root: Value, ghost rank: map<Value, nat>, cur: Value)
      requires Valid() && q.todo != [] && cur == q.todo[0] && q.reverseSeen == reverseSeen
      requires Going(program, U, cache, q, root, rank) && !program.Holds(cur)
      modifies this`cache, this`attrs
      ensures Valid() && Extends(old(cache), cache) && attrs.Keys >= old(attrs.Keys)
      ensures root in cache && !cache[root] && Recorded(old(cache))
      ensures program.hasOp(cur) ==> cur in attrs
    {
      ghost var C := cache;
      assert cur in q.todo;
      RefuteFrom(U, q.todo, q.seen, reverseSeen, root, cur);
      RootReached(C, cache, q, root, rank, cur);
      SetInIR(cur, false);
    }

    /** The front of the queue is pending: its open operands are queued. */
    method VisitPending(ghost U: set<Value>, todo: seq<Value>, seen: map<Value, set<Value>>, reverseSeen: map<Value, seq<Value>>,
                        ghost root: Value, ghost rank: map<Value, nat>, localtodo: seq<Value>)
      returns (todo': seq<Value>, seen': map<Value, set<Value>>, reverseSeen': map<Value, seq<Value>>,
               ghost rank': map<Value, nat>)
      requires program.Closed(U) && todo != [] && todo[0] !in seen && todo[0] !in cache && localtodo != []
      requires Going(program, U, cache, Query(todo, seen, reverseSeen), root, rank)
      requires Waits(program, cache, todo[0], Elements(localtodo))
      ensures Going(program, U, cache, Query(todo', seen', reverseSeen'), root, rank')
      ensures seen'.Keys == seen.Keys + {todo[0]}
    {
      ghost var q := Query(todo, seen, reverseSeen);
      var cur := todo[0];
      todo', reverseSeen' := WaitFor(todo[1..], reverseSeen, cur, localtodo);
      seen' := seen[cur := Elements(localtodo)];
      PendGoing(program, U, cache, q, root, rank, localtodo, reverseSeen');
      rank' := RankWith(rank, cur, localtodo);
    }

    /** The front of the queue is proved. */
    method VisitProved(ghost U: set<Value>, todo: seq<Value>, seen: map<Value, set<Value>>, reverseSeen: map<Value, seq<Value>>,
                       ghost root: Value, ghost rank: map<Value, nat>)
      returns (todo': seq<Value>, seen': map<Value, set<Value>>, reverseSeen': map<Value, seq<Value>>)
      requires todo != [] && todo[0] !in seen && program.Holds(todo[0])
      requires Going(program, U, cache, Query(todo, seen, reverseSeen), root, rank)
      modifies this`cache
      ensures Extends(old(cache), cache) && todo[0] in cache && todo' == todo[1..]
      ensures forall x | x in cache && x !in old(cache) :: cache[x]
      ensures cache.Keys + seen'.Keys >= old(cache.Keys) + seen.Keys
      ensures Going(program, U, cache, Query(todo', seen', reverseSeen'), root, rank)
    {
      assert todo[0] in todo;
      seen', reverseSeen' := ProveFrom(U, todo, seen, reverseSeen, root, rank, todo[0]);
      PopKeeps(program, U, cache, Query(todo, seen', reverseSeen'), root, rank);
      todo' := todo[1..];
    }

    /** One value taken from the front of the queue.  When it fails, the query is
        over and the failure of the root is cached. */
    method Visit(ghost U: set<Value>, todo: seq<Value>, seen: map<Value, set<Value>>, reverseSeen: map<Value, seq<Value>>,
                 ghost root: Value, ghost rank: map<Value, nat>)
      returns (failed: bool, todo': seq<Value>, seen': map<Value, set<Value>>, reverseSeen': map<Value, seq<Value>>,
               ghost rank': map<Value, nat>)
      requires Valid() && program.Closed(U) && todo != [] && todo[0] !in seen
      requires Going(program, U, cache, Query(todo, seen, reverseSeen), root, rank)
      modifies this
      ensures Valid() && Extends(old(cache), cache) && attrs.Keys >= old(attrs.Keys)
      ensures failed ==> root in cache && !cache[root]
      ensures Recorded(old(cache))
      ensures !failed ==>
        && Going(program, U, cache, Query(todo', seen', reverseSeen'), root, rank')
        && cache.Keys + seen'.Keys >= old(cache.Keys) + seen.Keys + {todo[0]}
        && (todo[0] in old(cache) ==> todo' == todo[1..])
    {
      var cur := todo[0];
      failed, todo', seen', reverseSeen', rank' := false, todo, seen, reverseSeen, rank;
      var status: State, localtodo: seq<Value> := Unknown, [];
      if cur in cache {
        status := if cache[cur] then Guaranteed else NotGuaranteed;
      } else {
        status, localtodo := LocalWithSetAttr(cur);
      }
      match status {
        case NotGuaranteed =>
          VisitFailed(U, Query(todo, seen, reverseSeen), reverseSeen, root, rank, cur);
          failed := true;
        case Guaranteed =>
          todo', seen', reverseSeen' := VisitProved(U, todo, seen, reverseSeen, root, rank);
        case Pending =>
          todo', seen', reverseSeen', rank' := VisitPending(U, todo, seen, reverseSeen, root, rank, localtodo);
        case Unknown =>
      }
    }

    /** `guaranteed`: the answer is membership in the greatest fixpoint, earlier
        answers stay, and this answer is remembered for the next query. */
    method IsGuaranteed(value: Value, ghost U: set<Value>) returns (b: bool)
      requires Valid() && value in U && program.Closed(U)
      modifies this
      ensures Valid() && Extends(old(cache), cache) && attrs.Keys >= old(attrs.Keys)
      ensures b == program.Holds(value)
      ensures value in cache || value in attrs
      ensures value !in old(cache) && program.hasOp(value) ==> value in attrs
      ensures Recorded(old(cache))
    {
      hide Going, QueryInv;
      if value in cache {
        return cache[value];
      }
      if value in attrs {
        return attrs[value];
      }
      var todo: seq<Value> := [value];
      var seen: map<Value, set<Value>> := map[];
      var reverseSeen: map<Value, seq<Value>> := map[];
      ghost var rank: map<Value, nat> := map[value := 0];
      GoingStart(program, U, cache, value);
      while todo != []
        invariant Valid() && Extends(old(cache), cache) && attrs.Keys >= old(attrs.Keys) && Recorded(old(cache))
        invariant Going(program, U, cache, Query(todo, seen, reverseSeen), value, rank)
        decreases U - (cache.Keys + seen.Keys), |todo|
      {
        ghost var K := cache.Keys + seen.Keys;
        FrontInU(program, U, cache, Query(todo, seen, reverseSeen), value, rank);
        if todo[0] in seen {
          PopGoing(program, U, cache, Query(todo, seen, reverseSeen), value, rank);
          todo := todo[1..];
          continue;
        }
        ghost var cur, wasCached := todo[0], todo[0] in cache;
        var failed;
        failed, todo, seen, reverseSeen, rank := Visit(U, todo, seen, reverseSeen, value, rank);
        if failed {
          return false;
        }
        if !wasCached {
          Shrinks(U, K, cache.Keys + seen.Keys, cur);
        }
      }
      GoingDone(program, U, cache, Query(todo, seen, reverseSeen), value, rank);
      MarkSeen(seen);
      assert value in cache;
      b := cache[value];
      SetInIR(value, b);
    }
  }
}
