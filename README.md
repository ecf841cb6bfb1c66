# Smart-figure editing API, modelled in Dafny

The editing layer of a smart-figure editor is the `SmartFigureApi` class in
`src/model/SmartFigureApi.js`. A smart figure is a document whose root owns
ordered id-lists of panels, files and resources. Each panel owns an image, and
also its own lists of keyword groups, attached files and attached resources.
Every API operation follows the same pattern:

- it works out where a new child goes (after a given sibling, or at the end);
- it builds the node payload;
- it makes its store calls inside one transaction;
- it moves the selection.

The `updateKeywordGroup` operation is the one with real logic. It reconciles a
group's stored keywords with a new keyword list using a two-cursor merge. Each
step does one of four things:

- appends a new keyword;
- removes and deep-deletes a leftover old keyword;
- updates the content of a kept keyword;
- inserts a new keyword at the current index.

The Dafny project has six modules, one file each:

- `Options` (`options.dfy`): the `Option` type. A JavaScript "falsy or absent"
  argument is `None`.
- `ChildLists` (`child_lists.dfy`): positional access to an id-list. It covers
  insert at an index, remove at an index, append, a sibling's position
  (`getPosition`), and the index an "insert after" operation uses.
- `Document` (`document.dfy`): the node store, covering nodes, image data,
  assets, the selection and the store calls (`Edit`) a transaction makes. It
  also holds the payload builders: the panel template, the file node, the
  keyword node, and the resource defaults merged by `Object.assign`.
- `KeywordMerge` (`keyword_merge.dfy`): the reconciler as a specification.
  - `AssignIds` gives the ids the new entries end up with.
  - `Plan` gives the exact sequence of store calls the merge makes.
  - Lemmas about `Plan` cover: no change for an unchanged list; creates and
    appends from an empty list; removes and deletes down to an empty list;
    which keywords get deleted; content is set only when it changed; removals
    come last.
- `KeywordReconcile` (`keyword_reconcile.dfy`): the loop invariant of the
  imperative merge (`Reconciling`). It also holds one lemma per loop branch
  showing that the branch keeps the invariant, and the lemmas that start and
  finish the loop.
- `SmartFigure` (`smart_figure_api.dfy`): the class `SmartFigureApi`. Its
  mutable fields are:
  - the node store;
  - the next fresh id;
  - the asset archive;
  - the selection;
  - the trace of store calls.

  Two invariants hold over them: `Valid()`, every stored id is below the next
  fresh id; and `Registered()`, every asset reference a node holds is an index
  into the archive, so the reference a new asset gets is held by no node yet.

  Each API method changes these fields as the source does. `UpdateKeywordGroup`
  is the source's `while` loop, proved against `Plan` and `AssignIds`. The
  source writes the loop's four branches inline. Here each branch is a method
  of its own (`AppendRemaining`, `RemoveRemaining`, `UpdateMatched`,
  `InsertUnmatched`), so that each step has its own proof.

The comment at `src/model/SmartFigureApi.js:98-99` assumes that the new list
keeps the old order, "with some items added, removed or updated". The merge
compares each entry only with the old keyword under the first cursor. So an
entry that carries a stored keyword's id out of that order goes unmatched, and
line 124 calls `tx.create` for an id that is still stored. Removing a keyword
that is not last does this. Take old keywords `K1, K2` and the new list `K2`:

- the ids differ at line 116;
- line 124 calls `tx.create` for `K2` while `K2` is still stored.

`KeywordMerge.MiddleRemovalRecreatesKeptKeyword` shows this, and a reordered
list fails the same way. An unmatched entry that carries an id not stored yet
is handled: lines 124-125 create it under that id where it stands. With old
keywords `K1, K2` and the new list `K1, K9, K2`, the group ends as
`K1, K9, K2` and nothing is deleted (`KeywordMerge.FreshCarriedIdExample`).
`Plan` and `AssignIds` model both cases. `UpdateKeywordGroup` itself is proved
under a narrower condition, listed under "Left out".

## Model

| member | source | states |
|---|---|---|
| ChildLists.InsertAt | src/model/SmartFigureApi.js:33 | inserting at an index: one element longer, the new child at that index, the elements before it unchanged, the ones after it moved up one place |
| ChildLists.RemoveAt | src/model/SmartFigureApi.js:111 | removing at an index: one element shorter, the elements before it unchanged, the ones after it moved down one place |
| ChildLists.Append | src/model/SmartFigureApi.js:106 | appending is inserting at the current length; the old list is a prefix and the new child is last |
| ChildLists.IndexOf | src/model/SmartFigureApi.js:25 | a sibling's position is the index of its first occurrence in the list |
| ChildLists.InsertIndex | src/model/SmartFigureApi.js:17-26 | the insertion index is the list length when no sibling is given, otherwise one past the sibling's first occurrence |
| ChildLists.RemoveInsertRoundTrip | src/model/SmartFigureApi.js:33 | removing at the index just inserted at gives back the original list |
| ChildLists.InsertAfterSibling | src/model/SmartFigureApi.js:23-26 | after an "insert after", the sibling keeps its position, the new child directly follows it, and the rest of the list follows the new child in order |
| Document.WithChildren | src/model/SmartFigureApi.js:33 | replacing one id-list property changes that list only; the other lists and the scalar attributes are kept |
| Document.DefaultPanelTemplate | src/model/SmartFigureApi.js:18-22 | defines the built-in panel template: a `panel` whose image has no asset yet (the legend paragraph is not modelled) |
| Document.TemplateOf | src/model/SmartFigureApi.js:26 | a sibling panel's template keeps its type, attributes and image, and has empty id-lists, so the new panel shares no child with the sibling |
| Document.PanelFromTemplate | src/model/SmartFigureApi.js:28-30 | a panel built from a template has its image's `src` set to the new asset and `mimeType` set to the file's type, and every other attribute is the template's |
| Document.WithImageSrc | src/model/SmartFigureApi.js:49 | setting the panel image's `src` changes that field only; the id-lists and other attributes are kept |
| Document.RefsBelow | src/model/SmartFigureApi.js:47-49 | a node's asset references (its `src` and its image's `src`) are all below a bound exactly when every asset it refers to is below it |
| Document.FileNode | src/model/SmartFigureApi.js:72-76 | defines the payload of a new file node: type `file`, `src` the new asset |
| Document.KeywordNode | src/model/SmartFigureApi.js:105 | defines the payload `tx.create(kwd2)` stores for a new keyword (at lines 105 and 124): a `keyword` node with the entry's content |
| Document.ResourceDefaults | src/model/SmartFigureApi.js:161 | defines the defaults `{type: 'resource'}` that `Object.assign` starts from |
| Document.Assign | src/model/SmartFigureApi.js:161 | `Object.assign(defaults, data)`: each field the data supplies wins, each absent field keeps the default, and the lists are the defaults' |
| KeywordMerge.Snapshot | src/model/SmartFigureApi.js:91 | resolving a group's id-list gives back exactly those ids, in order (`IdsOf(Snapshot(nodes, ids)) == ids`), each stored keyword holding the content its node has |
| KeywordMerge.CarriedIds | src/model/SmartFigureApi.js:116 | the ids the new entries carry, at most one per entry |
| KeywordMerge.CarriedIdsContains | src/model/SmartFigureApi.js:116 | every id an entry carries is among the carried ids |
| KeywordMerge.FreshCount | src/model/SmartFigureApi.js:105 | the entries without an id plus the carried ids account for every entry |
| KeywordMerge.AssignIds | src/model/SmartFigureApi.js:105-125 | each entry ends up with its own id if it carries one, otherwise with the next fresh id, in list order |
| KeywordMerge.AssignIdsFresh | src/model/SmartFigureApi.js:105-125 | an entry without an id gets `next` plus the number of id-less entries before it, so fresh ids are handed out consecutively in list order |
| KeywordMerge.CarriedIdsJoin | src/model/SmartFigureApi.js:116 | the carried ids of a concatenation are the concatenation of the carried ids |
| KeywordMerge.FreshCountJoin | src/model/SmartFigureApi.js:105 | the fresh count of a concatenation is the sum of the fresh counts |
| KeywordMerge.Plan | src/model/SmartFigureApi.js:100-130 | defines the store calls the merge loop makes, one step per cursor advance through the four branches; `UpdateKeywordGroup`'s trace is proved equal to it |
| KeywordMerge.PlanTouchesOnlyTheGroup | src/model/SmartFigureApi.js:100-130 | every call of the merge is a list edit on the group's `keywords`, the creation of a `keyword` node, a deep delete or a content update; it never edits another list or an image |
| KeywordMerge.UnchangedCarriesOldIds | src/model/SmartFigureApi.js:98-99 | the unchanged list meets the prefix condition: it carries exactly the old ids in order, has no fresh entry, and is assigned the old ids |
| KeywordMerge.PlanOfUnchangedIsEmpty | src/model/SmartFigureApi.js:116-122 | reconciling a group with its own keywords (same ids, same contents, same order) makes no store call at all |
| KeywordMerge.PlanFromEmpty | src/model/SmartFigureApi.js:103-108 | starting from an empty group, the merge makes exactly a create and an append for each entry, in the new list's order |
| KeywordMerge.PlanFromEmptyAt | src/model/SmartFigureApi.js:103-108 | starting from an empty group, calls 2k and 2k+1 are the create and the append of the k-th entry under its assigned id |
| KeywordMerge.PlanToEmpty | src/model/SmartFigureApi.js:109-113 | with an empty new list, each old keyword is removed at the same index and then deep-deleted, in list order |
| KeywordMerge.PlanToEmptyDeletesAll | src/model/SmartFigureApi.js:109-113 | with an empty new list, the deep-deleted ids are exactly the old ids, in order |
| KeywordMerge.DeletedIdsJoin | src/model/SmartFigureApi.js:112 | the ids deep-deleted by a concatenation of two call sequences are those of the first followed by those of the second |
| KeywordMerge.PlanDeletesTheUnkeptTail | src/model/SmartFigureApi.js:93-131 | when the carried ids are a prefix of the old ids, the merge deep-deletes exactly the old keywords after the kept ones, each once and in order |
| KeywordMerge.NoCarriedIsFresh | src/model/SmartFigureApi.js:105 | when no entry carries an id, the first entry is fresh and so are the rest |
| KeywordMerge.CarriedHead | src/model/SmartFigureApi.js:116 | under the prefix condition, a first entry that carries an id carries the first old id |
| KeywordMerge.MatchedTail | src/model/SmartFigureApi.js:116-122 | after a matched entry, the remaining entries still carry a prefix of the remaining old ids |
| KeywordMerge.UnmatchedIsFresh | src/model/SmartFigureApi.js:123-128 | under the prefix condition, an entry that does not match the current old keyword carries no id |
| KeywordMerge.PlanSetsOnlyChangedContent | src/model/SmartFigureApi.js:116-119 | every content update targets an old keyword whose stored content differs from the value being set |
| KeywordMerge.RemovalsLastJoin | src/model/SmartFigureApi.js:109-113 | calls that are not removals, followed by calls that end in removals at one index, still end in removals at that index |
| KeywordMerge.PlanRemovalsLast | src/model/SmartFigureApi.js:109-113 | once the merge removes or deep-deletes, it issues only removals, and every child removal is at the index just past the new entries |
| KeywordMerge.ContentUpdateExample | src/model/SmartFigureApi.js:116-122 | a single keyword with changed content produces exactly one content update |
| KeywordMerge.MixedEditExample | src/model/SmartFigureApi.js:123-128 | a new entry between two kept keywords produces one create and one insert at index 1, with ids `[1, next, 2]` |
| KeywordMerge.FreshCarriedIdExample | src/model/SmartFigureApi.js:123-125 | a new entry carrying the unstored id 9 between two kept keywords is created under id 9 and inserted at index 1, with ids `[1, 9, 2]`, no fresh id used and nothing deleted |
| KeywordMerge.MiddleRemovalRecreatesKeptKeyword | src/model/SmartFigureApi.js:98-99 | dropping the first of two keywords breaks the prefix condition, and the merge's first call creates the still-stored id 2 again |
| KeywordReconcile.Cursors | src/model/SmartFigureApi.js:95-97 | part of the loop invariant for lines 93-130: the cursors are in range; while the old cursor is within the kept keywords, the entries passed carry exactly the old ids passed; past them the new list is exhausted |
| KeywordReconcile.LiveList | src/model/SmartFigureApi.js:100-130 | part of the loop invariant: the next fresh id counts the fresh entries passed, and the group's list is the ids assigned to the entries passed followed by the old ids not yet passed |
| KeywordReconcile.Reconciling | src/model/SmartFigureApi.js:93-130 | the loop invariant for lines 93-130: the cursor relation, the live list, the passed entries in their final state, the unpassed old keywords unchanged, every other node unchanged, the store's domain, and the calls made plus the plan for the rest equal the whole plan |
| KeywordReconcile.Begin | src/model/SmartFigureApi.js:89-97 | with all cursors at 0, the initial store satisfies the merge invariant |
| KeywordReconcile.Finish | src/model/SmartFigureApi.js:100-131 | at loop exit: the group's list is the assigned ids, kept keywords have the new content, new keywords exist, the unkept keywords are gone, the fresh ids are used, and the trace is the planned calls |
| KeywordReconcile.FinishLive | src/model/SmartFigureApi.js:100 | at loop exit the group's list is exactly the assigned ids |
| KeywordReconcile.FinishDomain | src/model/SmartFigureApi.js:100 | at loop exit the stored old ids are exactly those not in the removed tail |
| KeywordReconcile.FinishCalls | src/model/SmartFigureApi.js:100 | at loop exit the store calls made are exactly the planned ones |
| KeywordReconcile.ReconcilingValid | src/model/SmartFigureApi.js:105 | during the merge every stored id is below the next fresh id, so creation picks an unused id |
| KeywordReconcile.StepReady | src/model/SmartFigureApi.js:101-102 | during the merge the group's list has `idx2 + L - idx1` entries, and the old keyword under the old cursor is stored, unchanged and not the group |
| KeywordReconcile.IdsBelowNext | src/model/SmartFigureApi.js:105 | every id assigned to the entries passed so far is below the next fresh id at that point |
| KeywordReconcile.PassedAvoidUnpassed | src/model/SmartFigureApi.js:109-113 | no assigned id is the group itself, and the ids already placed in the group's list differ from every old id not yet passed |
| KeywordReconcile.CursorsAppend | src/model/SmartFigureApi.js:103-108 | the append branch keeps the cursor relation between carried ids and old ids |
| KeywordReconcile.CursorsRemove | src/model/SmartFigureApi.js:109-113 | the remove branch keeps the cursor relation |
| KeywordReconcile.CursorsMatch | src/model/SmartFigureApi.js:116-122 | the match branch keeps the cursor relation |
| KeywordReconcile.CursorsInsert | src/model/SmartFigureApi.js:123-128 | the insert branch keeps the cursor relation, since the inserted entry carries no id |
| KeywordReconcile.LiveAppend | src/model/SmartFigureApi.js:106 | after the append the group's list is the assigned ids up to the new cursor |
| KeywordReconcile.LiveInsert | src/model/SmartFigureApi.js:125 | after the insert at `idx` the group's list is the assigned ids up to the new cursor, followed by the unpassed old ids |
| KeywordReconcile.LiveRemove | src/model/SmartFigureApi.js:111 | after the removal at `idx` the group's list is the placed ids followed by the old ids after the removed one |
| KeywordReconcile.LiveMatch | src/model/SmartFigureApi.js:116-121 | after a match the kept id moves from the unpassed part to the placed part |
| KeywordReconcile.AppendIsInsertAtCursor | src/model/SmartFigureApi.js:106 | once the old list is exhausted, appending is inserting at the target index |
| KeywordReconcile.PassedNewFrame | src/model/SmartFigureApi.js:100 | facts about already placed entries survive a step that leaves their nodes untouched |
| KeywordReconcile.PassedNewExtend | src/model/SmartFigureApi.js:100 | once the step's node is in its final state, the placed-entries fact extends by one entry |
| KeywordReconcile.UnpassedFrame | src/model/SmartFigureApi.js:100 | the unpassed old keywords stay unchanged through a step that touches none of them |
| KeywordReconcile.OthersFrame | src/model/SmartFigureApi.js:100 | nodes outside the group and its keywords stay unchanged through a step |
| KeywordReconcile.DomainCreate | src/model/SmartFigureApi.js:105 | creating under the next fresh id keeps the store's domain invariant |
| KeywordReconcile.DomainMatch | src/model/SmartFigureApi.js:116-122 | a match step keeps the store's domain invariant |
| KeywordReconcile.DomainRemove | src/model/SmartFigureApi.js:112 | deep-deleting the old keyword under the cursor keeps the store's domain invariant |
| KeywordReconcile.CallsAppend | src/model/SmartFigureApi.js:105-106 | the create and the append made are the next planned calls |
| KeywordReconcile.CallsInsert | src/model/SmartFigureApi.js:124-125 | the create and the insert made are the next planned calls |
| KeywordReconcile.CallsRemove | src/model/SmartFigureApi.js:111-112 | the removal and the deep delete made are the next planned calls |
| KeywordReconcile.CallsMatch | src/model/SmartFigureApi.js:117-119 | the content update made, or its absence, is what the plan calls for next |
| KeywordReconcile.UpdateTwice | src/model/SmartFigureApi.js:105-106 | storing at a new id and then updating a stored one changes the store only at those two ids, adds only the new id, and leaves the first value in place when the ids differ |
| KeywordReconcile.UpdateThenDelete | src/model/SmartFigureApi.js:111-112 | updating a stored id and then deleting an id changes the store only at those two ids and removes exactly the deleted id |
| KeywordReconcile.UpdateOnce | src/model/SmartFigureApi.js:117-119 | updating a stored id changes the store only at that id and leaves the set of ids as it was |
| KeywordReconcile.AppendStep | src/model/SmartFigureApi.js:103-108 | a create followed by an append keeps the merge invariant with the new cursor one further |
| KeywordReconcile.RemoveStep | src/model/SmartFigureApi.js:109-113 | a removal at `idx` followed by a deep delete of the old keyword keeps the merge invariant with the old cursor one further |
| KeywordReconcile.MatchStep | src/model/SmartFigureApi.js:116-122 | a content update (only when it differs) keeps the merge invariant with both cursors one further |
| KeywordReconcile.InsertStep | src/model/SmartFigureApi.js:123-128 | a create followed by an insert at `idx` keeps the merge invariant with the new cursor one further |
| SmartFigure.SmartFigureApi.constructor | src/model/SmartFigureApi.js:7-11 | the editing layer over the document and asset archive the session holds (its store, root, next fresh id and registered assets), with no selection and no calls; the store's ids are below the next fresh id and its asset references are all registered |
| SmartFigure.SmartFigureApi.CreateNode | src/model/SmartFigureApi.js:32 | creation stores the payload under an unused id, advances the next id, and records the create |
| SmartFigure.SmartFigureApi.InsertChildAt | src/model/SmartFigureApi.js:33 | the parent's list gets the child at the position; nothing else changes |
| SmartFigure.SmartFigureApi.AppendChildTo | src/model/SmartFigureApi.js:174 | the parent's list gets the child at its end; nothing else changes |
| SmartFigure.SmartFigureApi.RemoveChildAt | src/model/SmartFigureApi.js:111 | the parent's list loses the element at the position; nothing else changes |
| SmartFigure.SmartFigureApi.DeepDeleteNode | src/model/SmartFigureApi.js:112 | the node leaves the store; nothing else changes |
| SmartFigure.SmartFigureApi.SetNodeContent | src/model/SmartFigureApi.js:118 | only the node's content changes |
| SmartFigure.SmartFigureApi.AddAsset | src/model/SmartFigureApi.js:47 | the archive registers the asset and returns its new reference, which is its index |
| SmartFigure.SmartFigureApi.SelectItem | src/model/SmartFigureApi.js:34 | the whole new node becomes the selection; nothing else changes |
| SmartFigure.SmartFigureApi.SelectValueOf | src/model/SmartFigureApi.js:195-205 | the selection becomes the custom value selection of that node, property and value; nothing else changes |
| SmartFigure.SmartFigureApi.InsertPanel | src/model/SmartFigureApi.js:14-36 | a new panel, built from the default template or the given panel's template, with the new asset and the file's type, is put at the end of the root's panels or directly after the given panel, and is selected; the new asset is referred to by no other node, and every reference stays registered |
| SmartFigure.SmartFigureApi.ReplacePanelImage | src/model/SmartFigureApi.js:38-52 | the archive registers the file, the panel image's `src` becomes the new reference (which is returned), no id-list changes, and the selection stays; no other node refers to the new reference, and every reference stays registered |
| SmartFigure.SmartFigureApi.AddFile | src/model/SmartFigureApi.js:54-56 | a new file node is appended to the root's files and selected; no other node refers to its new asset |
| SmartFigure.SmartFigureApi.InsertFileAfter | src/model/SmartFigureApi.js:58-82 | a new file node pointing at a newly registered asset (with the file's name and type) is put at the end of the root's files or directly after the given file, selected, and returned; no other node refers to that asset, and every reference stays registered |
| SmartFigure.SmartFigureApi.AddKeywordGroup | src/model/SmartFigureApi.js:84-86 | a new keyword group is appended to the panel's keyword groups and selected |
| SmartFigure.SmartFigureApi.UpdateKeywordGroup | src/model/SmartFigureApi.js:88-132 | the group's keywords become the new entries' ids in the new order; kept keywords take the new content; new keywords are created under fresh ids; exactly the unkept old keywords are deleted; nothing else changes; and the calls made are `Plan`'s |
| SmartFigure.SmartFigureApi.AppendRemaining | src/model/SmartFigureApi.js:103-108 | the append branch keeps the merge invariant |
| SmartFigure.SmartFigureApi.RemoveRemaining | src/model/SmartFigureApi.js:109-113 | the remove branch keeps the merge invariant |
| SmartFigure.SmartFigureApi.UpdateMatched | src/model/SmartFigureApi.js:116-122 | the match branch keeps the merge invariant |
| SmartFigure.SmartFigureApi.InsertUnmatched | src/model/SmartFigureApi.js:123-128 | the insert branch keeps the merge invariant |
| SmartFigure.SmartFigureApi.InsertKeywordGroupAfter | src/model/SmartFigureApi.js:134-147 | a new keyword group from the given data is put at the end of the panel's groups or directly after the given group, and selected |
| SmartFigure.SmartFigureApi.AddResource | src/model/SmartFigureApi.js:149-151 | a new resource node (the defaults overridden by the data) is appended to the root's resources, selected, and returned |
| SmartFigure.SmartFigureApi.InsertResourceAfter | src/model/SmartFigureApi.js:153-170 | a new resource node (the defaults overridden by the data) is put at the end of the root's resources or directly after the given one, selected, and returned |
| SmartFigure.SmartFigureApi.AttachFile | src/model/SmartFigureApi.js:172-177 | the file id is appended to the panel's files without any check, and becomes the panel's value selection |
| SmartFigure.SmartFigureApi.AttachResource | src/model/SmartFigureApi.js:179-184 | the resource id is appended to the panel's resources without any check, and becomes the panel's value selection |
| SmartFigure.SmartFigureApi.SelectValue | src/model/SmartFigureApi.js:188-193 | given by id or as a node, the node's value selection is set with that property and value; nothing else changes |

## Left out

- The constructor's `extendWith(new AuthorApi())` and `extendWith(new AffiliationApi())`: these mix in APIs from the editing framework, which is not part of this model.
- Transactions as units: there is no rollback, no change notification and no undo history. A transaction body is its sequence of store calls (`trace`) plus the new state.
- The "fake update" in `replacePanelImage` that forces a redraw is modelled only as the store call that sets `src`. Rendering is not part of this model.
- Asset archive internals: a registered asset's reference is its index in `assets`. The file bytes are an opaque handle.
- `createNodeFromJson`'s nested creation: the `legend: [{type: 'paragraph'}]` children of panels, files and resources are not created. A node payload is a flat record.
- `getTemplate()` copying a panel: the template is the sibling's record with its id-lists emptied. Whatever child structure `getTemplate` copies, and `createNodeFromJson` would then re-create, is not part of this model.
- The panel's image is a record embedded in the panel node. In the source it is a separate node, found by `panel.resolve('image')` at line 45 and set by `tx.set([image.id, 'src'], ...)` at line 49. `ReplacePanelImage` therefore records `SetImageSrc(panelId, ...)` against the panel's id, not an image node's id.
- Document.Assign: the caller's data can override only `type`, `content`, `src` and `image` (the fields of `NodeData`). `Object.assign` at line 161 lets any field of `data` win, including `legend`, the id-list properties or an `id`. So "the lists are the defaults'" holds only for the fields modelled.
- The session's document as a whole: the constructor takes any store whose ids are below the next fresh id and whose asset references are indexes into the given archive. The framework state behind `BasicEditorApi` is not part of this model.
- `deepDeleteNode` removing descendants: only the node itself leaves the store. Keywords have no children.
- `tx.create(kwd2)` on a plain entry: a new keyword is a `keyword` node holding the entry's content, under its own id or else the next fresh id.
- Asset references in caller-supplied data: `InsertKeywordGroupAfter`, `AddKeywordGroup`, `InsertResourceAfter` and `AddResource` store whatever `src` or image `src` their data holds, as the source does. They keep every reference registered only when the data's references are registered.
- Missing ids: a `doc.get` that returns nothing would make the source throw. Every id an operation dereferences is a precondition.
- JavaScript falsiness: an absent or falsy sibling id is `None`. Id 0, which would be falsy, is not treated differently.
- `isString(node)` in `selectValue` becomes the `NodeArg` choice between an id and a node.
- Two lists can share a node, or hold a dangling id after `attachFile` / `attachResource`. Nothing here constrains this, and no store-wide integrity invariant beyond fresh ids and registered asset references is claimed.
- SmartFigure.SmartFigureApi.UpdateKeywordGroup: proved only when the ids the new entries carry are the first old ids, in order, and every other entry carries no id. So keywords may be updated, added anywhere, and removed only at the end. The source also accepts an unmatched entry that carries an id not stored yet, and creates it under that id (`KeywordMerge.FreshCarriedIdExample`; `Plan` and `AssignIds` cover it). The method leaves that case out because the model hands out node ids only from the `nextId` counter, and `Valid()` keeps every stored id below it; a node created under a caller's id could break that. Other preconditions: the old list has no duplicates, and it does not contain the group. Reordering, or removing a keyword that is not last, makes the code re-create a kept id (`KeywordMerge.MiddleRemovalRecreatesKeptKeyword`). What the store would do then is not modelled.
