/**
 * The keyword-group reconciler as a specification: which ids the entries of a
 * new keyword list end up with, and which store calls the two-cursor merge
 * issues for an old and a new keyword list.
 */
module KeywordMerge {
  import opened Options
  import opened Document

  /** A keyword as it is stored before reconciliation: its id and content. */
  datatype StoredKeyword = StoredKeyword(id: Id, content: string)

  /** An entry of the new keyword list: the id of the keyword it keeps, if any, and its content. */
  datatype KeywordData = KeywordData(id: Option<Id>, content: string)

  /** The stored keywords a group's id-list resolves to. */
  function Snapshot(nodes: map<Id, Node>, ids: seq<Id>): (r: seq<StoredKeyword>)
    requires forall x | x in ids :: x in nodes
    ensures IdsOf(r) == ids
    ensures forall k | 0 <= k < |r| :: r[k].id in nodes && r[k].content == nodes[r[k].id].content
  {
    seq(|ids|, k requires 0 <= k < |ids| => StoredKeyword(ids[k], nodes[ids[k]].content))
  }

  /** The ids of stored keywords, in order. */
  function IdsOf(s: seq<StoredKeyword>): (r: seq<Id>)
    ensures |r| == |s|
    ensures forall k | 0 <= k < |s| :: r[k] == s[k].id
  {
    seq(|s|, k requires 0 <= k < |s| => s[k].id)
  }

  /** The ids the entries of a new list carry, in order. */
  function CarriedIds(s: seq<KeywordData>): (r: seq<Id>)
    ensures |r| <= |s|
  {
    if s == [] then []
    else (if s[0].id.Some? then [s[0].id.value] else []) + CarriedIds(s[1..])
  }

  /** Every id an entry carries is among the carried ids. */
  lemma {:induction false} CarriedIdsContains(s: seq<KeywordData>, k: nat)
    requires k < |s| && s[k].id.Some?
    ensures s[k].id.value in CarriedIds(s)
  {
    if k > 0 {
      CarriedIdsContains(s[1..], k - 1);
    }
  }

  /** How many entries of a new list carry no id. */
  function FreshCount(s: seq<KeywordData>): (r: nat)
    ensures r + |CarriedIds(s)| == |s|
  {
    if s == [] then 0
    else (if s[0].id.None? then 1 else 0) + FreshCount(s[1..])
  }

  /**
   * The id each entry ends up with: the one it carries, or else the next fresh
   * id handed out in list order starting from `next`.
   */
  function AssignIds(s: seq<KeywordData>, next: nat): (r: seq<Id>)
    ensures |r| == |s|
    ensures forall k | 0 <= k < |s| && s[k].id.Some? :: r[k] == s[k].id.value
  {
    if s == [] then []
    else
      var head := if s[0].id.Some? then s[0].id.value else next;
      [head] + AssignIds(s[1..], if s[0].id.Some? then next else next + 1)
  }

  /** An entry without an id gets the fresh id after those of the id-less entries before it. */
  lemma {:induction false} AssignIdsFresh(s: seq<KeywordData>, next: nat, k: nat)
    requires k < |s| && s[k].id.None?
    ensures AssignIds(s, next)[k] == next + FreshCount(s[..k])
  {
    if k > 0 {
      var next' := if s[0].id.Some? then next else next + 1;
      AssignIdsFresh(s[1..], next', k - 1);
      assert s[..k][1..] == s[1..][..k - 1];
      assert AssignIds(s, next) == [AssignIds(s, next)[0]] + AssignIds(s[1..], next');
    }
  }

  lemma {:induction false} CarriedIdsJoin(a: seq<KeywordData>, b: seq<KeywordData>)
    ensures CarriedIds(a + b) == CarriedIds(a) + CarriedIds(b)
  {
    if a != [] {
      assert (a + b)[1..] == a[1..] + b;
      CarriedIdsJoin(a[1..], b);
    } else {
      assert a + b == b;
    }
  }

  lemma {:induction false} FreshCountJoin(a: seq<KeywordData>, b: seq<KeywordData>)
    ensures FreshCount(a + b) == FreshCount(a) + FreshCount(b)
  {
    if a != [] {
      assert (a + b)[1..] == a[1..] + b;
      FreshCountJoin(a[1..], b);
    } else {
      assert a + b == b;
    }
  }

  /** Extending a prefix of the new list by one entry extends what it carries by that entry's id. */
  lemma {:induction false} PrefixStep(s: seq<KeywordData>, j: nat)
    requires j < |s|
    ensures CarriedIds(s[..j + 1]) == CarriedIds(s[..j]) + (if s[j].id.Some? then [s[j].id.value] else [])
    ensures FreshCount(s[..j + 1]) == FreshCount(s[..j]) + (if s[j].id.None? then 1 else 0)
    ensures CarriedIds(s[..j]) <= CarriedIds(s)
  {
    assert s[..j + 1] == s[..j] + [s[j]];
    CarriedIdsJoin(s[..j], [s[j]]);
    FreshCountJoin(s[..j], [s[j]]);
    assert [s[j]][1..] == [];
    assert s == s[..j] + s[j..];
    CarriedIdsJoin(s[..j], s[j..]);
  }

  /**
   * While the carried ids seen so far are the first i old ids, the next entry
   * carries an id only if it is the (i+1)-th old id.
   */
  lemma {:induction false} NextCarried(news: seq<KeywordData>, j: nat, list: seq<Id>, i: nat)
    requires j < |news| && i <= |list|
    requires CarriedIds(news) <= list && CarriedIds(news[..j]) == list[..i]
    ensures news[j].id.Some? ==> i < |list| && news[j].id.value == list[i]
  {
    PrefixStep(news, j);
    if news[j].id.Some? {
      var pre := CarriedIds(news[..j + 1]);
      assert pre == list[..i] + [news[j].id.value];
      if j + 1 < |news| {
        PrefixStep(news, j + 1);
      } else {
        assert news[..j + 1] == news;
      }
      assert |pre| == i + 1 && pre[i] == news[j].id.value;
      assert CarriedIds(news)[i] == list[i];
    }
  }

  /**
   * With distinct old ids, the ids carried by a prefix of the new list that
   * are among the first i' old ids are none of the old ids from position i >= i' on.
   */
  lemma {:induction false} CarriedPrefixAvoids(news: seq<KeywordData>, m: nat, list: seq<Id>, i': nat, i: nat)
    requires m <= |news| && i' <= i <= |list|
    requires forall a, b | 0 <= a < b < |list| :: list[a] != list[b]
    requires CarriedIds(news[..m]) == list[..i']
    ensures forall k, j | 0 <= k < m && news[k].id.Some? && i <= j < |list| :: news[k].id.value != list[j]
  {
    forall k, j | 0 <= k < m && news[k].id.Some? && i <= j < |list|
      ensures news[k].id.value != list[j]
    {
      assert news[..m][k] == news[k];
      CarriedIdsContains(news[..m], k);
      var a :| 0 <= a < i' && list[..i'][a] == news[k].id.value;
      assert list[a] == list[..i'][a];
    }
  }

  /**
   * The store calls of the merge, for the old keywords from the old cursor on,
   * the new entries from the new cursor on, the target index `idx` and the next
   * fresh id `next`. One step per cursor advance: append after the old list is
   * exhausted; remove and deep-delete after the new list is exhausted; on equal
   * ids set the content only if it differs; otherwise create and insert at `idx`.
   */
  function Plan(group: Id, olds: seq<StoredKeyword>, news: seq<KeywordData>, idx: nat, next: nat): seq<Edit>
    decreases |olds| + |news|
  {
    if olds == [] && news == [] then []
    else if olds == [] then
      var id := if news[0].id.Some? then news[0].id.value else next;
      [Create(id, KeywordNode(news[0].content)), AppendChild(group, Keywords, id)]
        + Plan(group, olds, news[1..], idx + 1, if news[0].id.Some? then next else next + 1)
    else if news == [] then
      [RemoveChild(group, Keywords, idx), DeepDelete(olds[0].id)]
        + Plan(group, olds[1..], news, idx, next)
    else if Some(olds[0].id) == news[0].id then
      (if olds[0].content != news[0].content then [SetContent(olds[0].id, news[0].content)] else [])
        + Plan(group, olds[1..], news[1..], idx + 1, next)
    else
      var id := if news[0].id.Some? then news[0].id.value else next;
      [Create(id, KeywordNode(news[0].content)), InsertChild(group, Keywords, idx, id)]
        + Plan(group, olds, news[1..], idx + 1, if news[0].id.Some? then next else next + 1)
  }

  /** A call the merge may make: a list edit on the group's keywords, a keyword creation, a delete or a content update. */
  predicate GroupCall(group: Id, e: Edit)
  {
    match e
    case Create(_, node) => node.kind == "keyword"
    case InsertChild(parent, prop, _, _) => parent == group && prop == Keywords
    case AppendChild(parent, prop, _) => parent == group && prop == Keywords
    case RemoveChild(parent, prop, _) => parent == group && prop == Keywords
    case DeepDelete(_) => true
    case SetContent(_, _) => true
    case SetImageSrc(_, _) => false
  }

  /**
   * The merge edits no list but the group's keywords, creates only keyword
   * nodes, and never touches an image.
   */
  lemma {:induction false} PlanTouchesOnlyTheGroup(group: Id, olds: seq<StoredKeyword>, news: seq<KeywordData>, idx: nat, next: nat)
    ensures forall i | 0 <= i < |Plan(group, olds, news, idx, next)| :: GroupCall(group, Plan(group, olds, news, idx, next)[i])
    decreases |olds| + |news|
  {
    var p := Plan(group, olds, news, idx, next);
    if olds == [] && news == [] {
    } else {
      var head: seq<Edit>, tail: seq<Edit>;
      if olds == [] || (news != [] && Some(olds[0].id) != news[0].id) {
        var next' := if news[0].id.Some? then next else next + 1;
        tail := Plan(group, olds, news[1..], idx + 1, next');
        PlanTouchesOnlyTheGroup(group, olds, news[1..], idx + 1, next');
      } else if news == [] {
        tail := Plan(group, olds[1..], news, idx, next);
        PlanTouchesOnlyTheGroup(group, olds[1..], news, idx, next);
      } else {
        tail := Plan(group, olds[1..], news[1..], idx + 1, next);
        PlanTouchesOnlyTheGroup(group, olds[1..], news[1..], idx + 1, next);
      }
      head := p[..|p| - |tail|];
      assert p == head + tail;
      forall i | 0 <= i < |p|
        ensures GroupCall(group, p[i])
      {
        if i >= |head| {
          assert p[i] == tail[i - |head|];
        }
      }
    }
  }

  /** The new list that repeats the old one: same ids, same contents, same order. */
  function Unchanged(olds: seq<StoredKeyword>): seq<KeywordData>
  {
    seq(|olds|, k requires 0 <= k < |olds| => KeywordData(Some(olds[k].id), olds[k].content))
  }

  /** The unchanged list carries every old id, in order, and no entry is fresh. */
  lemma {:induction false} UnchangedCarriesOldIds(olds: seq<StoredKeyword>, next: nat)
    ensures CarriedIds(Unchanged(olds)) == IdsOf(olds) && FreshCount(Unchanged(olds)) == 0
    ensures AssignIds(Unchanged(olds), next) == IdsOf(olds)
    decreases |olds|
  {
    if olds != [] {
      assert Unchanged(olds)[1..] == Unchanged(olds[1..]);
      assert IdsOf(olds) == [olds[0].id] + IdsOf(olds[1..]);
      UnchangedCarriesOldIds(olds[1..], next);
    }
  }

  /** Reconciling a list with itself issues no call at all: no create, insert, remove, delete or set. */
  lemma {:induction false} PlanOfUnchangedIsEmpty(group: Id, olds: seq<StoredKeyword>, idx: nat, next: nat)
    ensures Plan(group, olds, Unchanged(olds), idx, next) == []
    decreases |olds|
  {
    if olds != [] {
      assert Unchanged(olds)[1..] == Unchanged(olds[1..]);
      PlanOfUnchangedIsEmpty(group, olds[1..], idx + 1, next);
    }
  }

  /** From an empty old list: a create and an append per new entry, in the new list's order. */
  lemma PlanFromEmpty(group: Id, news: seq<KeywordData>, idx: nat, next: nat)
    ensures var p := Plan(group, [], news, idx, next);
            var ids := AssignIds(news, next);
            |p| == 2 * |news| &&
            forall k | 0 <= k < |news| ::
              p[2 * k] == Create(ids[k], KeywordNode(news[k].content)) &&
              p[2 * k + 1] == AppendChild(group, Keywords, ids[k])
  {
    forall k | 0 <= k < |news| {
      PlanFromEmptyAt(group, news, idx, next, k);
    }
    if news != [] {
      PlanFromEmptyAt(group, news, idx, next, 0);
    } else {
      assert Plan(group, [], news, idx, next) == [];
    }
  }

  /** From an empty old list the merge issues two calls per new entry. */
  lemma {:induction false} PlanFromEmptyLength(group: Id, news: seq<KeywordData>, idx: nat, next: nat)
    ensures |Plan(group, [], news, idx, next)| == 2 * |news|
    decreases |news|
  {
    if news != [] {
      PlanFromEmptyLength(group, news[1..], idx + 1, if news[0].id.Some? then next else next + 1);
    }
  }

  /** From an empty old list the first entry's create and append come first, then the rest's calls. */
  lemma PlanFromEmptyCons(group: Id, news: seq<KeywordData>, idx: nat, next: nat)
    requires news != []
    ensures var next' := if news[0].id.Some? then next else next + 1;
            var id := AssignIds(news, next)[0];
            && Plan(group, [], news, idx, next) ==
                 [Create(id, KeywordNode(news[0].content)), AppendChild(group, Keywords, id)] + Plan(group, [], news[1..], idx + 1, next')
            && AssignIds(news, next) == [id] + AssignIds(news[1..], next')
  {
  }

  /** The two calls the merge issues, from an empty old list, for the k-th new entry. */
  lemma {:induction false} PlanFromEmptyAt(group: Id, news: seq<KeywordData>, idx: nat, next: nat, k: nat)
    requires k < |news|
    ensures var p := Plan(group, [], news, idx, next);
            var ids := AssignIds(news, next);
            |p| == 2 * |news| &&
            p[2 * k] == Create(ids[k], KeywordNode(news[k].content)) &&
            p[2 * k + 1] == AppendChild(group, Keywords, ids[k])
    decreases |news|
  {
    var next' := if news[0].id.Some? then next else next + 1;
    PlanFromEmptyCons(group, news, idx, next);
    PlanFromEmptyLength(group, news, idx, next);
    if k > 0 {
      PlanFromEmptyAt(group, news[1..], idx + 1, next', k - 1);
      assert news[1..][k - 1] == news[k];
    }
  }

  /** To an empty new list: each old keyword is removed at the same index and then deep-deleted. */
  lemma {:induction false} PlanToEmpty(group: Id, olds: seq<StoredKeyword>, idx: nat, next: nat)
    ensures var p := Plan(group, olds, [], idx, next);
            |p| == 2 * |olds| &&
            forall k | 0 <= k < |olds| ::
              p[2 * k] == RemoveChild(group, Keywords, idx) && p[2 * k + 1] == DeepDelete(olds[k].id)
    decreases |olds|
  {
    if olds != [] {
      PlanToEmpty(group, olds[1..], idx, next);
      var p := Plan(group, olds, [], idx, next);
      var tail := Plan(group, olds[1..], [], idx, next);
      assert p == [p[0], p[1]] + tail;
      forall k | 0 < k < |olds|
        ensures p[2 * k] == RemoveChild(group, Keywords, idx) && p[2 * k + 1] == DeepDelete(olds[k].id)
      {
        assert p[2 * k] == tail[2 * (k - 1)];
        assert p[2 * k + 1] == tail[2 * (k - 1) + 1];
        assert olds[1..][k - 1] == olds[k];
      }
    }
  }

  /** The ids an edit sequence deep-deletes, in order. */
  function DeletedIds(p: seq<Edit>): (r: seq<Id>)
    ensures |r| <= |p|
  {
    if p == [] then []
    else (if p[0].DeepDelete? then [p[0].id] else []) + DeletedIds(p[1..])
  }

  lemma {:induction false} DeletedIdsJoin(a: seq<Edit>, b: seq<Edit>)
    ensures DeletedIds(a + b) == DeletedIds(a) + DeletedIds(b)
  {
    if a != [] {
      assert (a + b)[1..] == a[1..] + b;
      DeletedIdsJoin(a[1..], b);
    } else {
      assert a + b == b;
    }
  }

  /**
   * When the carried ids are a prefix of the old ids, the merge deep-deletes
   * exactly the old keywords that are not kept (those after the c-th, c being
   * the number of carried ids), each once and in list order.
   */
  lemma {:induction false} PlanDeletesTheUnkeptTail(group: Id, olds: seq<StoredKeyword>, news: seq<KeywordData>, idx: nat, next: nat)
    requires CarriedIds(news) <= IdsOf(olds)
    ensures |CarriedIds(news)| <= |olds|
    ensures DeletedIds(Plan(group, olds, news, idx, next)) == IdsOf(olds[|CarriedIds(news)|..])
    decreases |olds| + |news|
  {
    if news == [] {
      PlanToEmptyDeletesAll(group, olds, idx, next);
      assert olds[0..] == olds;
    } else if olds == [] {
      var x := [Create(next, KeywordNode(news[0].content)), AppendChild(group, Keywords, next)];
      var r := Plan(group, [], news[1..], idx + 1, next + 1);
      assert DeletedIds(r) == [] && CarriedIds(news) == [] by {
        NoCarriedIsFresh(news);
        PlanDeletesTheUnkeptTail(group, [], news[1..], idx + 1, next + 1);
      }
      assert DeletedIds(Plan(group, [], news, idx, next)) == [] by {
        NoCarriedIsFresh(news);
        AppendStepPlan(group, news, idx, next);
        DeletedIdsJoin(x, r);
      }
    } else if Some(olds[0].id) == news[0].id {
      var c := |CarriedIds(news)|;
      var x := if olds[0].content != news[0].content then [SetContent(olds[0].id, news[0].content)] else [];
      var r := Plan(group, olds[1..], news[1..], idx + 1, next);
      assert 0 < c <= |olds| && DeletedIds(r) == IdsOf(olds[c..]) by {
        MatchedTail(olds, news);
        PlanDeletesTheUnkeptTail(group, olds[1..], news[1..], idx + 1, next);
        assert olds[1..][c - 1..] == olds[c..];
      }
      assert DeletedIds(Plan(group, olds, news, idx, next)) == DeletedIds(r) by {
        MatchStepPlan(group, olds, news, idx, next);
        DeletedIdsJoin(x, r);
      }
    } else {
      var x := [Create(next, KeywordNode(news[0].content)), InsertChild(group, Keywords, idx, next)];
      var r := Plan(group, olds, news[1..], idx + 1, next + 1);
      assert |CarriedIds(news)| <= |olds| && DeletedIds(r) == IdsOf(olds[|CarriedIds(news)|..]) by {
        UnmatchedIsFresh(olds, news);
        PlanDeletesTheUnkeptTail(group, olds, news[1..], idx + 1, next + 1);
      }
      assert DeletedIds(Plan(group, olds, news, idx, next)) == DeletedIds(r) by {
        UnmatchedIsFresh(olds, news);
        InsertStepPlan(group, olds, news, idx, next);
        DeletedIdsJoin(x, r);
      }
    }
  }

  /** To an empty new list, every old keyword is deep-deleted, in order. */
  lemma {:induction false} PlanToEmptyDeletesAll(group: Id, olds: seq<StoredKeyword>, idx: nat, next: nat)
    ensures DeletedIds(Plan(group, olds, [], idx, next)) == IdsOf(olds)
    decreases |olds|
  {
    if olds != [] {
      var x := [RemoveChild(group, Keywords, idx), DeepDelete(olds[0].id)];
      var r := Plan(group, olds[1..], [], idx, next);
      PlanToEmptyDeletesAll(group, olds[1..], idx, next);
      assert Plan(group, olds, [], idx, next) == x + r;
      DeletedIdsJoin(x, r);
      assert IdsOf(olds) == [olds[0].id] + IdsOf(olds[1..]);
    }
  }

  /** The calls for a first new entry when the old list is exhausted. */
  lemma AppendStepPlan(group: Id, news: seq<KeywordData>, idx: nat, next: nat)
    requires news != [] && news[0].id.None?
    ensures Plan(group, [], news, idx, next) ==
            [Create(next, KeywordNode(news[0].content)), AppendChild(group, Keywords, next)] + Plan(group, [], news[1..], idx + 1, next + 1)
  {
  }

  /** The calls for a first new entry that keeps the first old keyword. */
  lemma MatchStepPlan(group: Id, olds: seq<StoredKeyword>, news: seq<KeywordData>, idx: nat, next: nat)
    requires olds != [] && news != [] && Some(olds[0].id) == news[0].id
    ensures Plan(group, olds, news, idx, next) ==
            (if olds[0].content != news[0].content then [SetContent(olds[0].id, news[0].content)] else []) +
            Plan(group, olds[1..], news[1..], idx + 1, next)
  {
  }

  /** The calls for a first new entry that does not keep the first old keyword and carries no id. */
  lemma InsertStepPlan(group: Id, olds: seq<StoredKeyword>, news: seq<KeywordData>, idx: nat, next: nat)
    requires olds != [] && news != [] && Some(olds[0].id) != news[0].id && news[0].id.None?
    ensures Plan(group, olds, news, idx, next) ==
            [Create(next, KeywordNode(news[0].content)), InsertChild(group, Keywords, idx, next)] + Plan(group, olds, news[1..], idx + 1, next + 1)
  {
  }

  /** With nothing carried, consuming one entry leaves one fewer fresh entry. */
  lemma NoCarriedIsFresh(news: seq<KeywordData>)
    requires news != [] && CarriedIds(news) == []
    ensures news[0].id.None? && CarriedIds(news[1..]) == [] && FreshCount(news) == FreshCount(news[1..]) + 1
  {
  }

  /** When the carried ids are a prefix of the old ids, a first entry carrying an id carries the first old id. */
  lemma {:induction false} CarriedHead(olds: seq<StoredKeyword>, news: seq<KeywordData>)
    requires olds != [] && news != [] && CarriedIds(news) <= IdsOf(olds)
    ensures news[0].id.Some? ==> Some(olds[0].id) == news[0].id
  {
    if news[0].id.Some? {
      assert CarriedIds(news)[0] == news[0].id.value;
      assert IdsOf(olds)[0] == olds[0].id;
    }
  }

  /** After a matched first entry, the rest of the new list still carries a prefix of the rest of the old ids. */
  lemma {:induction false} MatchedTail(olds: seq<StoredKeyword>, news: seq<KeywordData>)
    requires olds != [] && news != [] && Some(olds[0].id) == news[0].id
    requires CarriedIds(news) <= IdsOf(olds)
    ensures CarriedIds(news[1..]) <= IdsOf(olds[1..])
    ensures |CarriedIds(news)| == |CarriedIds(news[1..])| + 1 && FreshCount(news) == FreshCount(news[1..])
  {
    assert CarriedIds(news) == [olds[0].id] + CarriedIds(news[1..]);
    assert IdsOf(olds[1..]) == IdsOf(olds)[1..];
  }

  /** An unmatched first entry carries no id, so the carried ids of the rest are the same. */
  lemma {:induction false} UnmatchedIsFresh(olds: seq<StoredKeyword>, news: seq<KeywordData>)
    requires olds != [] && news != [] && Some(olds[0].id) != news[0].id
    requires CarriedIds(news) <= IdsOf(olds)
    ensures news[0].id.None? && CarriedIds(news) == CarriedIds(news[1..]) && FreshCount(news) == FreshCount(news[1..]) + 1
  {
    CarriedHead(olds, news);
  }

  /** Every content update targets an old keyword whose stored content differs from the new one. */
  lemma {:induction false} PlanSetsOnlyChangedContent(group: Id, olds: seq<StoredKeyword>, news: seq<KeywordData>, idx: nat, next: nat)
    ensures var p := Plan(group, olds, news, idx, next);
            forall e | e in p && e.SetContent? ::
              exists k | 0 <= k < |olds| :: olds[k].id == e.id && olds[k].content != e.content
    decreases |olds| + |news|
  {
    var p := Plan(group, olds, news, idx, next);
    if olds == [] && news == [] {
    } else if olds == [] {
      PlanSetsOnlyChangedContent(group, olds, news[1..], idx + 1, if news[0].id.Some? then next else next + 1);
    } else if news == [] {
      PlanSetsOnlyChangedContent(group, olds[1..], news, idx, next);
      forall e | e in p && e.SetContent?
        ensures exists k | 0 <= k < |olds| :: olds[k].id == e.id && olds[k].content != e.content
      {
        var k' :| 0 <= k' < |olds[1..]| && olds[1..][k'].id == e.id && olds[1..][k'].content != e.content;
        assert olds[k' + 1] == olds[1..][k'];
      }
    } else if Some(olds[0].id) == news[0].id {
      PlanSetsOnlyChangedContent(group, olds[1..], news[1..], idx + 1, next);
      var tail := Plan(group, olds[1..], news[1..], idx + 1, next);
      forall e | e in p && e.SetContent?
        ensures exists k | 0 <= k < |olds| :: olds[k].id == e.id && olds[k].content != e.content
      {
        if e in tail {
          var k' :| 0 <= k' < |olds[1..]| && olds[1..][k'].id == e.id && olds[1..][k'].content != e.content;
          assert olds[k' + 1] == olds[1..][k'];
        } else {
          assert olds[0].id == e.id && olds[0].content != e.content;
        }
      }
    } else {
      PlanSetsOnlyChangedContent(group, olds, news[1..], idx + 1, if news[0].id.Some? then next else next + 1);
    }
  }

  /** A child removal or a deep delete. */
  predicate IsRemoval(e: Edit)
  {
    e.RemoveChild? || e.DeepDelete?
  }

  /**
   * Once a removal is issued only removals follow, and every child removal
   * takes position `pos`.
   */
  predicate RemovalsLastAt(p: seq<Edit>, pos: nat)
  {
    && (forall i, j | 0 <= i < j < |p| && IsRemoval(p[i]) :: IsRemoval(p[j]))
    && (forall i | 0 <= i < |p| && p[i].RemoveChild? :: p[i].pos == pos)
  }

  lemma {:induction false} RemovalsLastJoin(head: seq<Edit>, tail: seq<Edit>, pos: nat)
    requires forall i | 0 <= i < |head| :: !IsRemoval(head[i])
    requires RemovalsLastAt(tail, pos)
    ensures RemovalsLastAt(head + tail, pos)
  {
    var p := head + tail;
    forall i, j | 0 <= i < j < |p| && IsRemoval(p[i])
      ensures IsRemoval(p[j])
    {
      assert p[i] == tail[i - |head|] && p[j] == tail[j - |head|];
    }
    forall i | 0 <= i < |p| && p[i].RemoveChild?
      ensures p[i].pos == pos
    {
      assert p[i] == tail[i - |head|];
    }
  }

  /**
   * Removal happens only once the new list is exhausted: after the first
   * remove or deep delete the merge issues nothing else, and every removal
   * takes the child just past the new entries.
   */
  lemma {:induction false} PlanRemovalsLast(group: Id, olds: seq<StoredKeyword>, news: seq<KeywordData>, idx: nat, next: nat)
    ensures RemovalsLastAt(Plan(group, olds, news, idx, next), idx + |news|)
    decreases |olds| + |news|
  {
    var p := Plan(group, olds, news, idx, next);
    if olds == [] && news == [] {
    } else if news == [] {
      PlanToEmpty(group, olds, idx, next);
      forall i | 0 <= i < |p|
        ensures IsRemoval(p[i]) && (p[i].RemoveChild? ==> p[i].pos == idx)
      {
        var k := i / 2;
        assert 0 <= k < |olds|;
        if i % 2 == 0 {
          assert i == 2 * k && p[2 * k] == RemoveChild(group, Keywords, idx);
        } else {
          assert i == 2 * k + 1 && p[2 * k + 1] == DeepDelete(olds[k].id);
        }
      }
    } else {
      var id := if news[0].id.Some? then news[0].id.value else next;
      var next' := if news[0].id.Some? then next else next + 1;
      assert idx + 1 + |news[1..]| == idx + |news|;
      if olds == [] {
        PlanRemovalsLast(group, olds, news[1..], idx + 1, next');
        RemovalsLastJoin([Create(id, KeywordNode(news[0].content)), AppendChild(group, Keywords, id)],
                         Plan(group, olds, news[1..], idx + 1, next'), idx + |news|);
      } else if Some(olds[0].id) == news[0].id {
        PlanRemovalsLast(group, olds[1..], news[1..], idx + 1, next);
        var head := if olds[0].content != news[0].content then [SetContent(olds[0].id, news[0].content)] else [];
        RemovalsLastJoin(head, Plan(group, olds[1..], news[1..], idx + 1, next), idx + |news|);
      } else {
        PlanRemovalsLast(group, olds, news[1..], idx + 1, next');
        RemovalsLastJoin([Create(id, KeywordNode(news[0].content)), InsertChild(group, Keywords, idx, id)],
                         Plan(group, olds, news[1..], idx + 1, next'), idx + |news|);
      }
    }
  }

  /** From a one-element list with a changed content: the keyword is kept, one set call, nothing structural. */
  lemma ContentUpdateExample(group: Id, next: nat)
    ensures Plan(group, [StoredKeyword(1, "x")], [KeywordData(Some(1), "y")], 0, next) == [SetContent(1, "y")]
  {
  }

  /** An entry added between two kept keywords: exactly one create and one insert at index 1, nothing deleted. */
  lemma MixedEditExample(group: Id, next: nat)
    ensures var olds := [StoredKeyword(1, "a"), StoredKeyword(2, "b")];
            var news := [KeywordData(Some(1), "a"), KeywordData(None, "c"), KeywordData(Some(2), "b")];
            Plan(group, olds, news, 0, next) == [Create(next, KeywordNode("c")), InsertChild(group, Keywords, 1, next)] &&
            AssignIds(news, next) == [1, next, 2]
  {
  }

  /**
   * An entry carrying an id that is not stored yet is created under that id
   * and inserted where it stands; no fresh id is used and nothing is deleted.
   */
  lemma FreshCarriedIdExample(group: Id, next: nat)
    ensures var olds := [StoredKeyword(1, "a"), StoredKeyword(2, "b")];
            var news := [KeywordData(Some(1), "a"), KeywordData(Some(9), "c"), KeywordData(Some(2), "b")];
            Plan(group, olds, news, 0, next) == [Create(9, KeywordNode("c")), InsertChild(group, Keywords, 1, 9)] &&
            AssignIds(news, next) == [1, 9, 2] && FreshCount(news) == 0
  {
  }

  /**
   * Dropping a keyword that is not last is outside what the merge handles: the
   * kept keyword is not matched and is created again under the id it still has.
   */
  lemma MiddleRemovalRecreatesKeptKeyword(group: Id, next: nat)
    ensures var olds := [StoredKeyword(1, "a"), StoredKeyword(2, "b")];
            var news := [KeywordData(Some(2), "b")];
            !(CarriedIds(news) <= IdsOf(olds)) &&
            Plan(group, olds, news, 0, next)[0] == Create(2, KeywordNode("b"))
  {
  }
}
