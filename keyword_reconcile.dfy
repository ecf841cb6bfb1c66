/**
 * The state of the keyword merge between two steps, as a conjunction of small
 * predicates over values, and one lemma per predicate and kind of step showing
 * that the step keeps it. The store method of the reconciler carries this state
 * as its loop invariant.
 */
module KeywordReconcile {
  import opened Options
  import opened ChildLists
  import opened Document
  import opened KeywordMerge

  /**
   * What a merge starts from: the group `g`, the ids of its keywords `list0`,
   * the store `nodes0`, the new entries, the next fresh id `n0`, and the calls
   * made before the merge.
   */
  datatype MergeStart = MergeStart(g: Id, list0: seq<Id>, nodes0: map<Id, Node>, news: seq<KeywordData>, n0: nat, trace0: seq<Edit>)

  function Max(a: int, b: int): int
  {
    if a < b then b else a
  }

  /** The ids the new entries end up with. */
  function Ids(m: MergeStart): seq<Id>
  {
    AssignIds(m.news, m.n0)
  }

  /** How many old keywords are kept: as many as the new entries carry ids. */
  function Kept(m: MergeStart): nat
  {
    |CarriedIds(m.news)|
  }

  /** The old keywords as the merge reads them. */
  function Olds(m: MergeStart): seq<StoredKeyword>
    requires forall x | x in m.list0 :: x in m.nodes0
  {
    Snapshot(m.nodes0, m.list0)
  }

  /**
   * The situation the merge is written for: ids below `n0` are in use, the
   * group's keywords are distinct stored nodes other than the group, and the
   * ids the new entries carry are the first old ids, in order.
   */
  ghost predicate Premise(m: MergeStart)
  {
    && (forall x | x in m.nodes0 :: x < m.n0)
    && m.g in m.nodes0 && m.nodes0[m.g].keywords == m.list0
    && m.g !in m.list0 && NoDuplicates(m.list0)
    && (forall x | x in m.list0 :: x in m.nodes0)
    && CarriedIds(m.news) <= m.list0
  }

  /** The premise together with two of its consequences about the ids of the entries. */
  ghost predicate Startable(m: MergeStart)
  {
    && Premise(m)
    && (forall k | 0 <= k < |m.news| && m.news[k].id.Some? :: m.news[k].id.value in m.list0)
    && (forall k | 0 <= k < |m.news| && m.news[k].id.None? :: m.n0 <= Ids(m)[k])
  }

  /**
   * Where the cursors can be: while old keywords are still being kept, the
   * ids carried so far are the old ids passed so far; past the kept ones, the
   * new list is exhausted.
   */
  ghost predicate Cursors(m: MergeStart, idx1: nat, idx2: nat)
  {
    && idx1 <= |m.list0| && idx2 <= |m.news|
    && (idx1 <= Kept(m) ==> CarriedIds(m.news[..idx2]) == m.list0[..idx1])
    && (Kept(m) < idx1 ==> idx2 == |m.news|)
  }

  /** The next id and the group's live list: the ids of the passed entries, then the old keywords not yet passed. */
  ghost predicate LiveList(m: MergeStart, nodes: map<Id, Node>, nextId: nat, idx1: nat, idx2: nat)
    requires idx1 <= |m.list0| && idx2 <= |m.news|
  {
    && nextId == m.n0 + FreshCount(m.news[..idx2])
    && m.g in m.nodes0 && m.g in nodes
    && nodes[m.g] == m.nodes0[m.g].(keywords := Ids(m)[..idx2] + m.list0[idx1..])
  }

  /** The keywords of the passed entries: new ones as created from the entry, kept ones with the entry's content. */
  ghost predicate PassedNew(m: MergeStart, nodes: map<Id, Node>, idx2: nat)
    requires idx2 <= |m.news|
  {
    && (forall k | 0 <= k < idx2 && m.news[k].id.None? ::
          Ids(m)[k] in nodes && nodes[Ids(m)[k]] == KeywordNode(m.news[k].content))
    && (forall k | 0 <= k < idx2 && m.news[k].id.Some? ::
          m.news[k].id.value in m.nodes0 && m.news[k].id.value in nodes &&
          nodes[m.news[k].id.value] == m.nodes0[m.news[k].id.value].(content := m.news[k].content))
  }

  /** The old keywords not yet passed are as they were. */
  ghost predicate Unpassed(m: MergeStart, nodes: map<Id, Node>, idx1: nat)
  {
    forall k | idx1 <= k < |m.list0| ::
      m.list0[k] in m.nodes0 && m.list0[k] in nodes && nodes[m.list0[k]] == m.nodes0[m.list0[k]]
  }

  /** Nodes other than the group and its keywords are as they were. */
  ghost predicate Others(m: MergeStart, nodes: map<Id, Node>)
  {
    forall x | x in m.nodes0 && x != m.g && x !in m.list0 :: x in nodes && nodes[x] == m.nodes0[x]
  }

  /** Which ids are stored: the old ones except the passed old keywords past the kept ones, and every id handed out. */
  ghost predicate Domain(m: MergeStart, nodes: map<Id, Node>, nextId: nat, idx1: nat)
    requires Kept(m) <= |m.list0| && idx1 <= |m.list0|
  {
    && (forall x | x in m.nodes0 :: (x in nodes <==> x !in m.list0[Kept(m)..Max(Kept(m), idx1)]))
    && (forall x | x in nodes :: x in m.nodes0 || m.n0 <= x < nextId)
    && (forall x | m.n0 <= x < nextId :: x in nodes)
  }

  /** The calls made so far, followed by the calls of the rest of the merge, are the calls of the whole merge. */
  ghost predicate Calls(m: MergeStart, trace: seq<Edit>, nextId: nat, idx1: nat, idx2: nat)
    requires (forall x | x in m.list0 :: x in m.nodes0) && idx1 <= |m.list0| && idx2 <= |m.news|
  {
    trace + Plan(m.g, Olds(m)[idx1..], m.news[idx2..], idx2, nextId) == m.trace0 + Plan(m.g, Olds(m), m.news, 0, m.n0)
  }

  /** The loop invariant of the merge. */
  ghost predicate Reconciling(m: MergeStart, nodes: map<Id, Node>, nextId: nat, trace: seq<Edit>, idx1: nat, idx2: nat)
  {
    && Startable(m) && Cursors(m, idx1, idx2)
    && LiveList(m, nodes, nextId, idx1, idx2)
    && PassedNew(m, nodes, idx2) && Unpassed(m, nodes, idx1) && Others(m, nodes)
    && Domain(m, nodes, nextId, idx1)
    && Calls(m, trace, nextId, idx1, idx2)
  }

  /** `nodes'` agrees with `nodes` on every stored id other than `e1` and `e2`. */
  ghost predicate Agree(nodes: map<Id, Node>, nodes': map<Id, Node>, e1: Id, e2: Id)
  {
    forall y | y in nodes && y != e1 && y != e2 :: y in nodes' && nodes'[y] == nodes[y]
  }

  /** The ids one step may change: the group, an id not handed out yet, or the old keyword under the old cursor. */
  ghost predicate Touchable(m: MergeStart, idx1: nat, idx2: nat, e: Id)
    requires idx2 <= |m.news|
  {
    e == m.g || m.n0 + FreshCount(m.news[..idx2]) <= e || (idx1 < |m.list0| && e == m.list0[idx1])
  }

  // ---- Before the first step and after the last ----

  lemma Begin(m: MergeStart)
    requires Premise(m)
    ensures Reconciling(m, m.nodes0, m.n0, m.trace0, 0, 0)
  {
    forall k | 0 <= k < |m.news| && m.news[k].id.Some?
      ensures m.news[k].id.value in m.list0
    {
      CarriedIdsContains(m.news, k);
    }
    forall k | 0 <= k < |m.news| && m.news[k].id.None?
      ensures m.n0 <= Ids(m)[k]
    {
      AssignIdsFresh(m.news, m.n0, k);
    }
    assert m.news[..0] == [] && m.news[0..] == m.news && m.list0[0..] == m.list0 && Olds(m)[0..] == Olds(m);
    assert Ids(m)[..0] + m.list0[0..] == m.list0;
  }

  lemma Finish(m: MergeStart, nodes: map<Id, Node>, nextId: nat, trace: seq<Edit>, idx1: nat, idx2: nat)
    requires Reconciling(m, nodes, nextId, trace, idx1, idx2) && idx1 >= |m.list0| && idx2 >= |m.news|
    ensures m.g in nodes && nodes[m.g] == m.nodes0[m.g].(keywords := Ids(m))
    ensures PassedNew(m, nodes, |m.news|)
    ensures forall k | 0 <= k < |m.news| && m.news[k].id.None? :: Ids(m)[k] !in m.nodes0
    ensures forall x | x in m.nodes0 :: (x in nodes <==> x !in m.list0[Kept(m)..])
    ensures nextId == m.n0 + FreshCount(m.news)
    ensures forall x | x in nodes :: x < nextId
    ensures trace == m.trace0 + Plan(m.g, Olds(m), m.news, 0, m.n0)
  {
    assert idx1 == |m.list0| && idx2 == |m.news|;
    FinishLive(m, nodes, nextId, idx1, idx2);
    FinishDomain(m, nodes, nextId, idx1);
    FinishCalls(m, trace, nextId, idx1, idx2);
  }

  lemma FinishLive(m: MergeStart, nodes: map<Id, Node>, nextId: nat, idx1: nat, idx2: nat)
    requires idx1 == |m.list0| && idx2 == |m.news| && LiveList(m, nodes, nextId, idx1, idx2)
    ensures m.g in nodes && nodes[m.g] == m.nodes0[m.g].(keywords := Ids(m))
    ensures nextId == m.n0 + FreshCount(m.news)
  {
    assert m.news[..idx2] == m.news;
    assert Ids(m)[..idx2] + m.list0[idx1..] == Ids(m);
  }

  lemma FinishDomain(m: MergeStart, nodes: map<Id, Node>, nextId: nat, idx1: nat)
    requires Startable(m) && idx1 == |m.list0| && Domain(m, nodes, nextId, idx1) && m.n0 <= nextId
    ensures forall x | x in m.nodes0 :: (x in nodes <==> x !in m.list0[Kept(m)..])
    ensures forall x | x in nodes :: x < nextId
  {
    assert m.list0[Kept(m)..Max(Kept(m), idx1)] == m.list0[Kept(m)..];
  }

  lemma FinishCalls(m: MergeStart, trace: seq<Edit>, nextId: nat, idx1: nat, idx2: nat)
    requires Startable(m) && idx1 == |m.list0| && idx2 == |m.news| && Calls(m, trace, nextId, idx1, idx2)
    ensures trace == m.trace0 + Plan(m.g, Olds(m), m.news, 0, m.n0)
  {
    assert m.news[idx2..] == [] && Olds(m)[idx1..] == [];
  }

  lemma ReconcilingValid(m: MergeStart, nodes: map<Id, Node>, nextId: nat, trace: seq<Edit>, idx1: nat, idx2: nat)
    requires Startable(m) && Cursors(m, idx1, idx2) && LiveList(m, nodes, nextId, idx1, idx2) && Domain(m, nodes, nextId, idx1)
    ensures forall x | x in nodes :: x < nextId
    ensures m.g in nodes && m.n0 <= nextId
  {
  }

  /** What the store calls of the next step need: the group, its list's length, and the old keyword under the cursor. */
  lemma StepReady(m: MergeStart, nodes: map<Id, Node>, nextId: nat, trace: seq<Edit>, idx1: nat, idx2: nat)
    requires Startable(m) && Cursors(m, idx1, idx2) && LiveList(m, nodes, nextId, idx1, idx2) && Unpassed(m, nodes, idx1)
    ensures m.g in nodes && |Children(nodes[m.g], Keywords)| == idx2 + |m.list0| - idx1
    ensures idx1 < |m.list0| ==>
              var x := m.list0[idx1];
              x != m.g && x in m.nodes0 && x in nodes && nodes[x] == m.nodes0[x]
  {
  }

  // ---- Facts about the ids of the entries ----

  /** Every id of a passed entry is below the next id. */
  lemma IdsBelowNext(m: MergeStart, idx2: nat)
    requires Startable(m) && idx2 <= |m.news|
    ensures forall k | 0 <= k < idx2 :: Ids(m)[k] < m.n0 + FreshCount(m.news[..idx2])
  {
    forall k | 0 <= k < idx2
      ensures Ids(m)[k] < m.n0 + FreshCount(m.news[..idx2])
    {
      if m.news[k].id.Some? {
        assert m.news[k].id.value in m.list0;
      } else {
        AssignIdsFresh(m.news, m.n0, k);
        PrefixStep(m.news, k);
        assert m.news[..idx2] == m.news[..k + 1] + m.news[k + 1..idx2];
        FreshCountJoin(m.news[..k + 1], m.news[k + 1..idx2]);
      }
    }
  }

  /** No id of a passed entry is the group or an old keyword not yet passed. */
  lemma PassedAvoidUnpassed(m: MergeStart, idx1: nat, idx2: nat)
    requires Startable(m) && Cursors(m, idx1, idx2)
    ensures forall k | 0 <= k < |m.news| :: Ids(m)[k] != m.g
    ensures forall k, j | 0 <= k < idx2 && idx1 <= j < |m.list0| :: Ids(m)[k] != m.list0[j]
  {
    if idx1 <= Kept(m) {
      CarriedPrefixAvoids(m.news, idx2, m.list0, idx1, idx1);
    } else {
      assert m.news[..idx2] == m.news;
      assert CarriedIds(m.news) == m.list0[..Kept(m)];
      CarriedPrefixAvoids(m.news, idx2, m.list0, Kept(m), idx1);
    }
    forall k, j | 0 <= k < idx2 && idx1 <= j < |m.list0|
      ensures Ids(m)[k] != m.list0[j]
    {
      if m.news[k].id.Some? {
        assert Ids(m)[k] == m.news[k].id.value;
      } else {
        assert m.n0 <= Ids(m)[k] && m.list0[j] in m.nodes0;
      }
    }
  }

  // ---- How each kind of step moves the cursors ----

  lemma CursorsAppend(m: MergeStart, idx1: nat, idx2: nat)
    requires CarriedIds(m.news) <= m.list0 && Cursors(m, idx1, idx2) && idx1 >= |m.list0| && idx2 < |m.news|
    ensures m.news[idx2].id.None? && Cursors(m, idx1, idx2 + 1)
    ensures FreshCount(m.news[..idx2 + 1]) == FreshCount(m.news[..idx2]) + 1
    ensures Ids(m)[idx2] == m.n0 + FreshCount(m.news[..idx2])
  {
    NextCarried(m.news, idx2, m.list0, idx1);
    PrefixStep(m.news, idx2);
    AssignIdsFresh(m.news, m.n0, idx2);
  }

  lemma CursorsRemove(m: MergeStart, idx1: nat, idx2: nat)
    requires CarriedIds(m.news) <= m.list0 && Cursors(m, idx1, idx2) && idx1 < |m.list0| && idx2 >= |m.news|
    ensures Kept(m) <= idx1 && Cursors(m, idx1 + 1, idx2)
  {
    assert m.news[..idx2] == m.news;
  }

  lemma CursorsMatch(m: MergeStart, idx1: nat, idx2: nat)
    requires CarriedIds(m.news) <= m.list0 && Cursors(m, idx1, idx2) && idx1 < |m.list0| && idx2 < |m.news|
    requires Some(m.list0[idx1]) == m.news[idx2].id
    ensures idx1 < Kept(m) && Cursors(m, idx1 + 1, idx2 + 1)
    ensures FreshCount(m.news[..idx2 + 1]) == FreshCount(m.news[..idx2])
    ensures Ids(m)[idx2] == m.list0[idx1]
  {
    PrefixStep(m.news, idx2);
    assert m.list0[..idx1 + 1] == m.list0[..idx1] + [m.list0[idx1]];
    if idx2 + 1 < |m.news| {
      PrefixStep(m.news, idx2 + 1);
    } else {
      assert m.news[..idx2 + 1] == m.news;
    }
  }

  lemma CursorsInsert(m: MergeStart, idx1: nat, idx2: nat)
    requires CarriedIds(m.news) <= m.list0 && Cursors(m, idx1, idx2) && idx1 < |m.list0| && idx2 < |m.news|
    requires Some(m.list0[idx1]) != m.news[idx2].id
    ensures m.news[idx2].id.None? && Cursors(m, idx1, idx2 + 1)
    ensures FreshCount(m.news[..idx2 + 1]) == FreshCount(m.news[..idx2]) + 1
    ensures Ids(m)[idx2] == m.n0 + FreshCount(m.news[..idx2])
  {
    NextCarried(m.news, idx2, m.list0, idx1);
    PrefixStep(m.news, idx2);
    AssignIdsFresh(m.news, m.n0, idx2);
  }

  // ---- The group's live list ----

  lemma LiveAppend(m: MergeStart, nodes: map<Id, Node>, nodes': map<Id, Node>, nextId: nat, idx1: nat, idx2: nat)
    requires idx1 == |m.list0| && idx2 < |m.news| && LiveList(m, nodes, nextId, idx1, idx2)
    requires Ids(m)[idx2] == nextId && FreshCount(m.news[..idx2 + 1]) == FreshCount(m.news[..idx2]) + 1
    requires m.g in nodes' && nodes'[m.g] == WithChildren(nodes[m.g], Keywords, Append(Children(nodes[m.g], Keywords), nextId))
    ensures LiveList(m, nodes', nextId + 1, idx1, idx2 + 1)
  {
    assert m.list0[idx1..] == [];
    assert Ids(m)[..idx2 + 1] == Ids(m)[..idx2] + [nextId];
  }

  lemma LiveInsert(m: MergeStart, nodes: map<Id, Node>, nodes': map<Id, Node>, nextId: nat, idx1: nat, idx2: nat)
    requires idx1 <= |m.list0| && idx2 < |m.news| && LiveList(m, nodes, nextId, idx1, idx2)
    requires Ids(m)[idx2] == nextId && FreshCount(m.news[..idx2 + 1]) == FreshCount(m.news[..idx2]) + 1
    requires m.g in nodes' && nodes'[m.g] == WithChildren(nodes[m.g], Keywords, InsertAt(Children(nodes[m.g], Keywords), idx2, nextId))
    ensures LiveList(m, nodes', nextId + 1, idx1, idx2 + 1)
  {
    InsertAtJoin(Ids(m)[..idx2], m.list0[idx1..], nextId);
    assert Ids(m)[..idx2 + 1] == Ids(m)[..idx2] + [nextId];
  }

  lemma LiveRemove(m: MergeStart, nodes: map<Id, Node>, nodes': map<Id, Node>, nextId: nat, idx1: nat, idx2: nat)
    requires idx1 < |m.list0| && idx2 == |m.news| && LiveList(m, nodes, nextId, idx1, idx2)
    requires m.g in nodes' && nodes'[m.g] == WithChildren(nodes[m.g], Keywords, RemoveAt(Children(nodes[m.g], Keywords), idx2))
    ensures LiveList(m, nodes', nextId, idx1 + 1, idx2)
  {
    RemoveAtJoin(Ids(m)[..idx2], m.list0[idx1..]);
    assert m.list0[idx1..][1..] == m.list0[idx1 + 1..];
  }

  lemma LiveMatch(m: MergeStart, nodes: map<Id, Node>, nodes': map<Id, Node>, nextId: nat, idx1: nat, idx2: nat)
    requires idx1 < |m.list0| && idx2 < |m.news| && LiveList(m, nodes, nextId, idx1, idx2)
    requires Ids(m)[idx2] == m.list0[idx1] && FreshCount(m.news[..idx2 + 1]) == FreshCount(m.news[..idx2])
    requires m.g in nodes' && nodes'[m.g] == nodes[m.g]
    ensures LiveList(m, nodes', nextId, idx1 + 1, idx2 + 1)
  {
    assert Ids(m)[..idx2 + 1] == Ids(m)[..idx2] + [m.list0[idx1]];
    assert m.list0[idx1..] == [m.list0[idx1]] + m.list0[idx1 + 1..];
  }

  /** Once the old list is exhausted, the live list is as long as the new cursor, so appending is inserting at the cursor. */
  lemma AppendIsInsertAtCursor(m: MergeStart, nodes: map<Id, Node>, nextId: nat, idx1: nat, idx2: nat, x: Id)
    requires idx1 == |m.list0| && idx2 <= |m.news| && LiveList(m, nodes, nextId, idx1, idx2)
    ensures |Children(nodes[m.g], Keywords)| == idx2
    ensures Append(Children(nodes[m.g], Keywords), x) == InsertAt(Children(nodes[m.g], Keywords), idx2, x)
  {
    assert m.list0[idx1..] == [];
  }

  // ---- The keywords of the passed entries, the unpassed ones and the others ----

  lemma PassedNewFrame(m: MergeStart, nodes: map<Id, Node>, nodes': map<Id, Node>, idx1: nat, idx2: nat, e1: Id, e2: Id)
    requires Startable(m) && Cursors(m, idx1, idx2) && PassedNew(m, nodes, idx2)
    requires Agree(nodes, nodes', e1, e2) && Touchable(m, idx1, idx2, e1) && Touchable(m, idx1, idx2, e2)
    ensures PassedNew(m, nodes', idx2)
  {
    IdsBelowNext(m, idx2);
    PassedAvoidUnpassed(m, idx1, idx2);
  }

  lemma PassedNewExtend(m: MergeStart, nodes: map<Id, Node>, idx2: nat)
    requires idx2 < |m.news| && PassedNew(m, nodes, idx2)
    requires m.news[idx2].id.None? ==> Ids(m)[idx2] in nodes && nodes[Ids(m)[idx2]] == KeywordNode(m.news[idx2].content)
    requires m.news[idx2].id.Some? ==>
               m.news[idx2].id.value in m.nodes0 && m.news[idx2].id.value in nodes &&
               nodes[m.news[idx2].id.value] == m.nodes0[m.news[idx2].id.value].(content := m.news[idx2].content)
    ensures PassedNew(m, nodes, idx2 + 1)
  {
  }

  lemma UnpassedFrame(m: MergeStart, nodes: map<Id, Node>, nodes': map<Id, Node>, idx1: nat, idx1': nat, e1: Id, e2: Id)
    requires Startable(m) && Unpassed(m, nodes, idx1) && idx1 <= idx1' <= |m.list0| && Agree(nodes, nodes', e1, e2)
    requires e1 == m.g || m.n0 <= e1 || (idx1 < idx1' && e1 == m.list0[idx1])
    requires e2 == m.g || m.n0 <= e2 || (idx1 < idx1' && e2 == m.list0[idx1])
    ensures Unpassed(m, nodes', idx1')
  {
  }

  lemma OthersFrame(m: MergeStart, nodes: map<Id, Node>, nodes': map<Id, Node>, e1: Id, e2: Id)
    requires Startable(m) && Others(m, nodes) && Agree(nodes, nodes', e1, e2)
    requires e1 == m.g || m.n0 <= e1 || e1 in m.list0
    requires e2 == m.g || m.n0 <= e2 || e2 in m.list0
    ensures Others(m, nodes')
  {
  }

  // ---- Which ids are stored ----

  lemma DomainCreate(m: MergeStart, nodes: map<Id, Node>, nodes': map<Id, Node>, nextId: nat, idx1: nat)
    requires Startable(m) && idx1 <= |m.list0| && Domain(m, nodes, nextId, idx1) && m.n0 <= nextId
    requires forall y :: y in nodes' <==> (y in nodes || y == nextId)
    ensures Domain(m, nodes', nextId + 1, idx1)
  {
  }

  lemma DomainMatch(m: MergeStart, nodes: map<Id, Node>, nodes': map<Id, Node>, nextId: nat, idx1: nat)
    requires Startable(m) && idx1 < Kept(m) && Domain(m, nodes, nextId, idx1)
    requires forall y :: y in nodes' <==> y in nodes
    ensures Domain(m, nodes', nextId, idx1 + 1)
  {
    assert Max(Kept(m), idx1) == Kept(m) == Max(Kept(m), idx1 + 1);
  }

  lemma DomainRemove(m: MergeStart, nodes: map<Id, Node>, nodes': map<Id, Node>, nextId: nat, idx1: nat)
    requires Startable(m) && Kept(m) <= idx1 < |m.list0| && Domain(m, nodes, nextId, idx1)
    requires forall y :: y in nodes' <==> (y in nodes && y != m.list0[idx1])
    ensures Domain(m, nodes', nextId, idx1 + 1)
  {
    assert Max(Kept(m), idx1) == idx1 && Max(Kept(m), idx1 + 1) == idx1 + 1;
    assert m.list0[Kept(m)..idx1 + 1] == m.list0[Kept(m)..idx1] + [m.list0[idx1]];
    assert m.list0[idx1] in m.nodes0;
  }

  // ---- The calls ----

  lemma CallsAppend(m: MergeStart, trace: seq<Edit>, nextId: nat, idx1: nat, idx2: nat)
    requires Startable(m) && idx1 == |m.list0| && idx2 < |m.news| && m.news[idx2].id.None?
    requires Calls(m, trace, nextId, idx1, idx2)
    ensures Calls(m, trace + [Create(nextId, KeywordNode(m.news[idx2].content))] + [AppendChild(m.g, Keywords, nextId)],
                  nextId + 1, idx1, idx2 + 1)
  {
    assert Olds(m)[idx1..] == [];
    assert m.news[idx2..][0] == m.news[idx2] && m.news[idx2..][1..] == m.news[idx2 + 1..];
  }

  lemma CallsInsert(m: MergeStart, trace: seq<Edit>, nextId: nat, idx1: nat, idx2: nat)
    requires Startable(m) && idx1 < |m.list0| && idx2 < |m.news| && m.news[idx2].id.None?
    requires Calls(m, trace, nextId, idx1, idx2)
    ensures Calls(m, trace + [Create(nextId, KeywordNode(m.news[idx2].content))] + [InsertChild(m.g, Keywords, idx2, nextId)],
                  nextId + 1, idx1, idx2 + 1)
  {
    assert Olds(m)[idx1..][0] == Olds(m)[idx1];
    assert m.news[idx2..][0] == m.news[idx2] && m.news[idx2..][1..] == m.news[idx2 + 1..];
  }

  lemma CallsRemove(m: MergeStart, trace: seq<Edit>, nextId: nat, idx1: nat, idx2: nat)
    requires Startable(m) && idx1 < |m.list0| && idx2 == |m.news|
    requires Calls(m, trace, nextId, idx1, idx2)
    ensures Calls(m, trace + [RemoveChild(m.g, Keywords, idx2)] + [DeepDelete(m.list0[idx1])], nextId, idx1 + 1, idx2)
  {
    assert Olds(m)[idx1..][0] == Olds(m)[idx1] && Olds(m)[idx1..][1..] == Olds(m)[idx1 + 1..];
    assert m.news[idx2..] == [];
  }

  lemma CallsMatch(m: MergeStart, trace: seq<Edit>, nextId: nat, idx1: nat, idx2: nat)
    requires Startable(m) && idx1 < |m.list0| && idx2 < |m.news| && Some(m.list0[idx1]) == m.news[idx2].id
    requires Calls(m, trace, nextId, idx1, idx2)
    ensures var x := m.list0[idx1];
            Calls(m, trace + (if m.nodes0[x].content != m.news[idx2].content then [SetContent(x, m.news[idx2].content)] else []),
                  nextId, idx1 + 1, idx2 + 1)
  {
    assert Olds(m)[idx1..][0] == Olds(m)[idx1] && Olds(m)[idx1..][1..] == Olds(m)[idx1 + 1..];
    assert m.news[idx2..][0] == m.news[idx2] && m.news[idx2..][1..] == m.news[idx2 + 1..];
  }

  // ---- What the store calls of one step change ----

  /** Storing `va` under `a` and then `vb` under the stored `b` changes only `a` and `b` and adds only `a`. */
  lemma UpdateTwice(nodes: map<Id, Node>, nodes': map<Id, Node>, a: Id, va: Node, b: Id, vb: Node)
    requires b in nodes && nodes' == nodes[a := va][b := vb]
    ensures Agree(nodes, nodes', a, b)
    ensures forall y :: y in nodes' <==> (y in nodes || y == a)
    ensures a != b ==> a in nodes' && nodes'[a] == va
  {
  }

  /** Storing `vb` under the stored `b` and then deleting `a` changes only `a` and `b` and removes only `a`. */
  lemma UpdateThenDelete(nodes: map<Id, Node>, nodes': map<Id, Node>, b: Id, vb: Node, a: Id)
    requires b in nodes && nodes' == nodes[b := vb] - {a}
    ensures Agree(nodes, nodes', b, a)
    ensures forall y :: y in nodes' <==> (y in nodes && y != a)
  {
  }

  /** Storing `va` under the stored `a` changes only `a` and keeps the stored ids. */
  lemma UpdateOnce(nodes: map<Id, Node>, nodes': map<Id, Node>, a: Id, va: Node)
    requires a in nodes && nodes' == nodes[a := va]
    ensures Agree(nodes, nodes', a, a)
    ensures forall y :: y in nodes' <==> y in nodes
  {
  }

  // ---- Whole steps ----

  /** Creating the entry's keyword and appending it to the group keeps the merge state. */
  lemma AppendStep(m: MergeStart, nodes: map<Id, Node>, nextId: nat, trace: seq<Edit>, idx1: nat, idx2: nat, nodes': map<Id, Node>)
    requires Reconciling(m, nodes, nextId, trace, idx1, idx2) && idx1 >= |m.list0| && idx2 < |m.news|
    requires var nodes1 := nodes[nextId := KeywordNode(m.news[idx2].content)];
             nodes' == nodes1[m.g := WithChildren(nodes1[m.g], Keywords, Append(Children(nodes1[m.g], Keywords), nextId))]
    ensures Reconciling(m, nodes', nextId + 1,
                        trace + [Create(nextId, KeywordNode(m.news[idx2].content))] + [AppendChild(m.g, Keywords, nextId)],
                        idx1, idx2 + 1)
  {
    CursorsAppend(m, idx1, idx2);
    ReconcilingValid(m, nodes, nextId, trace, idx1, idx2);
    var kw := KeywordNode(m.news[idx2].content);
    var gnode := WithChildren(nodes[m.g], Keywords, Append(Children(nodes[m.g], Keywords), nextId));
    UpdateTwice(nodes, nodes', nextId, kw, m.g, gnode);
    LiveAppend(m, nodes, nodes', nextId, idx1, idx2);
    PassedNewFrame(m, nodes, nodes', idx1, idx2, nextId, m.g);
    PassedNewExtend(m, nodes', idx2);
    UnpassedFrame(m, nodes, nodes', idx1, idx1, nextId, m.g);
    OthersFrame(m, nodes, nodes', nextId, m.g);
    DomainCreate(m, nodes, nodes', nextId, idx1);
    CallsAppend(m, trace, nextId, idx1, idx2);
  }

  /** Creating the entry's keyword and inserting it at the new cursor keeps the merge state. */
  lemma InsertStep(m: MergeStart, nodes: map<Id, Node>, nextId: nat, trace: seq<Edit>, idx1: nat, idx2: nat, nodes': map<Id, Node>)
    requires Reconciling(m, nodes, nextId, trace, idx1, idx2) && idx1 < |m.list0| && idx2 < |m.news|
    requires Some(m.list0[idx1]) != m.news[idx2].id
    requires var nodes1 := nodes[nextId := KeywordNode(m.news[idx2].content)];
             nodes' == nodes1[m.g := WithChildren(nodes1[m.g], Keywords, InsertAt(Children(nodes1[m.g], Keywords), idx2, nextId))]
    ensures Reconciling(m, nodes', nextId + 1,
                        trace + [Create(nextId, KeywordNode(m.news[idx2].content))] + [InsertChild(m.g, Keywords, idx2, nextId)],
                        idx1, idx2 + 1)
  {
    CursorsInsert(m, idx1, idx2);
    ReconcilingValid(m, nodes, nextId, trace, idx1, idx2);
    var kw := KeywordNode(m.news[idx2].content);
    var gnode := WithChildren(nodes[m.g], Keywords, InsertAt(Children(nodes[m.g], Keywords), idx2, nextId));
    UpdateTwice(nodes, nodes', nextId, kw, m.g, gnode);
    LiveInsert(m, nodes, nodes', nextId, idx1, idx2);
    PassedNewFrame(m, nodes, nodes', idx1, idx2, nextId, m.g);
    PassedNewExtend(m, nodes', idx2);
    UnpassedFrame(m, nodes, nodes', idx1, idx1, nextId, m.g);
    OthersFrame(m, nodes, nodes', nextId, m.g);
    DomainCreate(m, nodes, nodes', nextId, idx1);
    CallsInsert(m, trace, nextId, idx1, idx2);
  }

  /** Removing the child at the new cursor and deep-deleting the old keyword keeps the merge state. */
  lemma RemoveStep(m: MergeStart, nodes: map<Id, Node>, nextId: nat, trace: seq<Edit>, idx1: nat, idx2: nat, nodes': map<Id, Node>)
    requires Reconciling(m, nodes, nextId, trace, idx1, idx2) && idx1 < |m.list0| && idx2 >= |m.news|
    requires nodes' == nodes[m.g := WithChildren(nodes[m.g], Keywords, RemoveAt(Children(nodes[m.g], Keywords), idx2))] - {m.list0[idx1]}
    ensures Reconciling(m, nodes', nextId, trace + [RemoveChild(m.g, Keywords, idx2)] + [DeepDelete(m.list0[idx1])], idx1 + 1, idx2)
  {
    CursorsRemove(m, idx1, idx2);
    var x := m.list0[idx1];
    var gnode := WithChildren(nodes[m.g], Keywords, RemoveAt(Children(nodes[m.g], Keywords), idx2));
    UpdateThenDelete(nodes, nodes', m.g, gnode, x);
    LiveRemove(m, nodes, nodes', nextId, idx1, idx2);
    PassedNewFrame(m, nodes, nodes', idx1, idx2, m.g, x);
    UnpassedFrame(m, nodes, nodes', idx1, idx1 + 1, m.g, x);
    OthersFrame(m, nodes, nodes', m.g, x);
    DomainRemove(m, nodes, nodes', nextId, idx1);
    CallsRemove(m, trace, nextId, idx1, idx2);
  }

  /** Setting the kept keyword's content when it differs from the entry's keeps the merge state. */
  lemma MatchStep(m: MergeStart, nodes: map<Id, Node>, nextId: nat, trace: seq<Edit>, idx1: nat, idx2: nat,
                  nodes': map<Id, Node>, trace': seq<Edit>)
    requires Reconciling(m, nodes, nextId, trace, idx1, idx2) && idx1 < |m.list0| && idx2 < |m.news|
    requires Some(m.list0[idx1]) == m.news[idx2].id
    requires var x := m.list0[idx1];
             var c := m.news[idx2].content;
             x in nodes &&
             if nodes[x].content != c then nodes' == nodes[x := nodes[x].(content := c)] && trace' == trace + [SetContent(x, c)]
             else nodes' == nodes && trace' == trace
    ensures Reconciling(m, nodes', nextId, trace', idx1 + 1, idx2 + 1)
  {
    CursorsMatch(m, idx1, idx2);
    var x := m.list0[idx1];
    var c := m.news[idx2].content;
    assert nodes[x] == m.nodes0[x];
    if nodes[x].content != c {
      UpdateOnce(nodes, nodes', x, nodes[x].(content := c));
    } else {
      assert nodes'[x] == m.nodes0[x].(content := c);
      assert trace' == trace + [];
    }
    assert m.g != x;
    LiveMatch(m, nodes, nodes', nextId, idx1, idx2);
    PassedNewFrame(m, nodes, nodes', idx1, idx2, x, x);
    PassedNewExtend(m, nodes', idx2);
    UnpassedFrame(m, nodes, nodes', idx1, idx1 + 1, x, x);
    OthersFrame(m, nodes, nodes', x, x);
    DomainMatch(m, nodes, nodes', nextId, idx1);
    CallsMatch(m, trace, nextId, idx1, idx2);
  }
}
