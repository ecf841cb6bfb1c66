/**
 * The editing layer of a smart-figure document: every operation resolves an
 * insertion index, builds a node payload, makes its store calls in one
 * transaction and moves the selection; the keyword-group update reconciles a
 * group's stored keywords with a new list by a two-cursor merge.
 */
module SmartFigure {
  import opened Options
  import opened ChildLists
  import opened Document
  import opened KeywordMerge
  import opened KeywordReconcile

  /** How `selectValue` is given its node: by id, or as the node itself. */
  datatype NodeArg = ById(id: Id) | ByNode(nodeId: Id)

  class SmartFigureApi {
    /** The node store. */
    var nodes: map<Id, Node>
    /** The id of the document root, which owns `panels`, `files` and `resources`. */
    const rootId: Id
    /** The next id node creation hands out. */
    var nextId: nat
    /** What the asset archive has registered; an asset's reference is its index. */
    var assets: seq<Asset>
    /** The selection pointer. */
    var selection: Selection
    /** The store calls made by the transactions so far, in order. */
    var trace: seq<Edit>

    /** Node creation hands out ids that are not in use: every stored id is below `nextId`. */
    ghost predicate Valid()
      reads this
    {
      forall x | x in nodes :: x < nextId
    }

    /** Every asset reference the document holds was handed out by the archive. */
    ghost predicate Registered()
      reads this
    {
      forall x | x in nodes :: RefsBelow(nodes[x], |assets|)
    }

    /**
     * The editing layer over the document and the asset archive the session
     * holds, before any call; the store refers only to assets in the archive.
     */
    constructor (store: map<Id, Node>, root: Id, next: nat, archive: seq<Asset>)
      requires root in store
      requires forall x | x in store :: x < next
      requires forall x | x in store :: RefsBelow(store[x], |archive|)
      ensures Valid() && Registered()
      ensures rootId == root && nodes == store && nextId == next && assets == archive
      ensures selection == NoSelection && trace == []
    {
      rootId := root;
      nodes := store;
      nextId := next;
      assets := archive;
      selection := NoSelection;
      trace := [];
    }

    // ---- Store calls made inside a transaction ----

    /** Node creation (`tx.create`, `createNodeFromJson`): one record under a fresh id. */
    method CreateNode(node: Node) returns (id: Id)
      requires Valid()
      modifies this
      ensures Valid()
      ensures id == old(nextId) && id !in old(nodes) && nextId == id + 1
      ensures nodes == old(nodes)[id := node]
      ensures old(Registered()) && RefsBelow(node, |assets|) ==> Registered()
      ensures trace == old(trace) + [Create(id, node)]
      ensures assets == old(assets) && selection == old(selection)
    {
      id := nextId;
      nodes := nodes[id := node];
      nextId := nextId + 1;
      trace := trace + [Create(id, node)];
    }

    /** `documentHelpers.insertAt(tx, [parent, prop], pos, child)`. */
    method InsertChildAt(parent: Id, prop: ListProp, pos: nat, child: Id)
      requires parent in nodes && pos <= |Children(nodes[parent], prop)|
      modifies this
      ensures nodes == old(nodes)[parent := WithChildren(old(nodes)[parent], prop, InsertAt(Children(old(nodes)[parent], prop), pos, child))]
      ensures old(Registered()) ==> Registered()
      ensures trace == old(trace) + [InsertChild(parent, prop, pos, child)]
      ensures nextId == old(nextId) && assets == old(assets) && selection == old(selection)
    {
      nodes := nodes[parent := WithChildren(nodes[parent], prop, InsertAt(Children(nodes[parent], prop), pos, child))];
      trace := trace + [InsertChild(parent, prop, pos, child)];
    }

    /** `documentHelpers.append(tx, [parent, prop], child)`. */
    method AppendChildTo(parent: Id, prop: ListProp, child: Id)
      requires parent in nodes
      modifies this
      ensures nodes == old(nodes)[parent := WithChildren(old(nodes)[parent], prop, Append(Children(old(nodes)[parent], prop), child))]
      ensures old(Registered()) ==> Registered()
      ensures trace == old(trace) + [AppendChild(parent, prop, child)]
      ensures nextId == old(nextId) && assets == old(assets) && selection == old(selection)
    {
      nodes := nodes[parent := WithChildren(nodes[parent], prop, Append(Children(nodes[parent], prop), child))];
      trace := trace + [AppendChild(parent, prop, child)];
    }

    /** `documentHelpers.removeAt(tx, [parent, prop], pos)`. */
    method RemoveChildAt(parent: Id, prop: ListProp, pos: nat)
      requires parent in nodes && pos < |Children(nodes[parent], prop)|
      modifies this
      ensures nodes == old(nodes)[parent := WithChildren(old(nodes)[parent], prop, RemoveAt(Children(old(nodes)[parent], prop), pos))]
      ensures old(Registered()) ==> Registered()
      ensures trace == old(trace) + [RemoveChild(parent, prop, pos)]
      ensures nextId == old(nextId) && assets == old(assets) && selection == old(selection)
    {
      nodes := nodes[parent := WithChildren(nodes[parent], prop, RemoveAt(Children(nodes[parent], prop), pos))];
      trace := trace + [RemoveChild(parent, prop, pos)];
    }

    /** `documentHelpers.deepDeleteNode(tx, id)`: the node leaves the store. */
    method DeepDeleteNode(id: Id)
      requires id in nodes
      modifies this
      ensures nodes == old(nodes) - {id}
      ensures old(Registered()) ==> Registered()
      ensures trace == old(trace) + [DeepDelete(id)]
      ensures nextId == old(nextId) && assets == old(assets) && selection == old(selection)
    {
      nodes := nodes - {id};
      trace := trace + [DeepDelete(id)];
    }

    /** `node.set('content', content)`. */
    method SetNodeContent(id: Id, content: string)
      requires id in nodes
      modifies this
      ensures nodes == old(nodes)[id := old(nodes)[id].(content := content)]
      ensures old(Registered()) ==> Registered()
      ensures trace == old(trace) + [SetContent(id, content)]
      ensures nextId == old(nextId) && assets == old(assets) && selection == old(selection)
    {
      nodes := nodes[id := nodes[id].(content := content)];
      trace := trace + [SetContent(id, content)];
    }

    /** `archive.addAsset(...)`: registers a binary and returns its new reference. */
    method AddAsset(asset: Asset) returns (ref: AssetId)
      modifies this
      ensures ref == |old(assets)| && assets == old(assets) + [asset]
      ensures old(Registered()) ==> Registered()
      ensures nodes == old(nodes) && nextId == old(nextId) && selection == old(selection) && trace == old(trace)
    {
      ref := |assets|;
      assets := assets + [asset];
    }

    /** `_selectItem(tx, node)`: the whole node becomes the selection. */
    method SelectItem(id: Id)
      modifies this
      ensures selection == NodeSelection(id)
      ensures nodes == old(nodes) && nextId == old(nextId) && assets == old(assets) && trace == old(trace)
    {
      selection := NodeSelection(id);
    }

    /** `_selectValue(tx, nodeId, propertyName, valueId)`: a custom value selection. */
    method SelectValueOf(nodeId: Id, property: string, valueId: Id)
      modifies this
      ensures selection == ValueSelection(nodeId, property, valueId)
      ensures nodes == old(nodes) && nextId == old(nextId) && assets == old(assets) && trace == old(trace)
    {
      selection := ValueSelection(nodeId, property, valueId);
    }

    // ---- The editing API ----

    /**
     * A new panel from an image file, appended to the root's panels or put
     * directly after the given panel; it is built from the default template or
     * from that panel's template, with only the image's `src` (the new asset)
     * and `mimeType` (the file's type) overwritten, and becomes the selection.
     */
    method InsertPanel(file: FileObject, currentPanelId: Option<Id>)
      requires Valid() && rootId in nodes
      requires currentPanelId.Some? ==>
                 currentPanelId.value in nodes && currentPanelId.value in nodes[rootId].panels &&
                 nodes[currentPanelId.value].image.Some?
      requires Registered()
      modifies this
      ensures Valid() && Registered()
      ensures forall x | x in nodes && x != old(nextId) :: !RefersTo(nodes[x], |old(assets)|)
      ensures var id := old(nextId);
              var panels := old(nodes)[rootId].panels;
              var pos := InsertIndex(panels, currentPanelId);
              var template := if currentPanelId.Some? then TemplateOf(old(nodes)[currentPanelId.value]) else DefaultPanelTemplate();
              var panel := PanelFromTemplate(template, |old(assets)|, file.mimeType);
              && assets == old(assets) + [Asset(None, file)]
              && nextId == id + 1 && id !in old(nodes)
              && nodes == old(nodes)[id := panel][rootId := old(nodes)[rootId].(panels := InsertAt(panels, pos, id))]
              && trace == old(trace) + [Create(id, panel), InsertChild(rootId, Panels, pos, id)]
              && selection == NodeSelection(id)
    {
      var insertPos := |nodes[rootId].panels|;
      var template := DefaultPanelTemplate();
      if currentPanelId.Some? {
        insertPos := IndexOf(nodes[rootId].panels, currentPanelId.value) + 1;
        template := TemplateOf(nodes[currentPanelId.value]);
      }
      var assetId := AddAsset(Asset(None, file));
      var panel := PanelFromTemplate(template, assetId, file.mimeType);
      var newPanel := CreateNode(panel);
      InsertChildAt(rootId, Panels, insertPos, newPanel);
      SelectItem(newPanel);
    }

    /**
     * Registers a new image for a panel and points the panel image's `src` at
     * it; no id-list changes, the selection stays, and the new reference is returned.
     */
    method ReplacePanelImage(panelId: Id, file: FileObject) returns (newAssetId: AssetId)
      requires Valid()
      requires panelId in nodes && nodes[panelId].image.Some?
      requires Registered()
      modifies this
      ensures Valid() && Registered()
      ensures forall x | x in nodes && x != panelId :: !RefersTo(nodes[x], newAssetId)
      ensures newAssetId == |old(assets)| && assets == old(assets) + [Asset(None, file)]
      ensures nodes == old(nodes)[panelId := WithImageSrc(old(nodes)[panelId], newAssetId)]
      ensures nodes[panelId].image.value.src == Some(newAssetId)
      ensures forall x, p | x in nodes :: Children(nodes[x], p) == Children(old(nodes)[x], p)
      ensures trace == old(trace) + [SetImageSrc(panelId, newAssetId)]
      ensures nextId == old(nextId) && selection == old(selection)
    {
      newAssetId := AddAsset(Asset(None, file));
      nodes := nodes[panelId := WithImageSrc(nodes[panelId], newAssetId)];
      trace := trace + [SetImageSrc(panelId, newAssetId)];
    }

    /** `addFile`: a new file appended to the root's files. */
    method AddFile(fileName: string, file: FileObject) returns (id: Id, node: Node)
      requires Valid() && rootId in nodes && Registered()
      modifies this
      ensures Valid() && Registered()
      ensures forall x | x in nodes && x != id :: !RefersTo(nodes[x], |old(assets)|)
      ensures id == old(nextId) && id !in old(nodes) && nextId == id + 1
      ensures node == FileNode(|old(assets)|) && assets == old(assets) + [Asset(Some(fileName), file)]
      ensures nodes == old(nodes)[id := node][rootId := old(nodes)[rootId].(files := old(nodes)[rootId].files + [id])]
      ensures trace == old(trace) + [Create(id, node), InsertChild(rootId, Files, |old(nodes)[rootId].files|, id)]
      ensures selection == NodeSelection(id)
    {
      ghost var files := nodes[rootId].files;
      id, node := InsertFileAfter(fileName, file, None);
      assert InsertAt(files, |files|, id) == Append(files, id);
    }

    /**
     * A new file node whose `src` is a newly registered asset (with the file's
     * name and type), appended to the root's files or put directly after the
     * given file; it becomes the selection and is returned.
     */
    method InsertFileAfter(fileName: string, file: FileObject, currentFileId: Option<Id>) returns (id: Id, node: Node)
      requires Valid() && rootId in nodes
      requires currentFileId.Some? ==> currentFileId.value in nodes && currentFileId.value in nodes[rootId].files
      requires Registered()
      modifies this
      ensures Valid() && Registered()
      ensures forall x | x in nodes && x != id :: !RefersTo(nodes[x], |old(assets)|)
      ensures var files := old(nodes)[rootId].files;
              var pos := InsertIndex(files, currentFileId);
              && id == old(nextId) && id !in old(nodes) && nextId == id + 1
              && node == FileNode(|old(assets)|) && assets == old(assets) + [Asset(Some(fileName), file)]
              && nodes == old(nodes)[id := node][rootId := old(nodes)[rootId].(files := InsertAt(files, pos, id))]
              && trace == old(trace) + [Create(id, node), InsertChild(rootId, Files, pos, id)]
              && selection == NodeSelection(id)
    {
      var insertPos := |nodes[rootId].files|;
      if currentFileId.Some? {
        insertPos := IndexOf(nodes[rootId].files, currentFileId.value) + 1;
      }
      var assetId := AddAsset(Asset(Some(fileName), file));
      assert forall x | x in nodes :: !RefersTo(nodes[x], assetId);
      id := CreateNode(FileNode(assetId));
      InsertChildAt(rootId, Files, insertPos, id);
      SelectItem(id);
      node := nodes[id];
    }

    /** `addKeywordGroup`: a new keyword group appended to the panel's keyword groups. */
    method AddKeywordGroup(panelId: Id, data: Node)
      requires Valid() && panelId in nodes
      modifies this
      ensures Valid()
      ensures var id := old(nextId);
              && id !in old(nodes) && nextId == id + 1
              && nodes == old(nodes)[id := data][panelId := old(nodes)[panelId].(keywords := old(nodes)[panelId].keywords + [id])]
              && trace == old(trace) + [Create(id, data), InsertChild(panelId, Keywords, |old(nodes)[panelId].keywords|, id)]
              && selection == NodeSelection(id)
      ensures assets == old(assets)
      ensures old(Registered()) && RefsBelow(data, |assets|) ==> Registered()
    {
      ghost var groups := nodes[panelId].keywords;
      InsertKeywordGroupAfter(panelId, data, None);
      assert InsertAt(groups, |groups|, old(nextId)) == Append(groups, old(nextId));
    }

    /**
     * Reconciles a keyword group's stored keywords with a new list by the
     * two-cursor merge. The model covers the case the merge is written for:
     * the old keywords resolve to distinct stored nodes other than the group,
     * the ids the new entries carry are the first old ids in order (keywords
     * are updated, added anywhere, and removed only at the end), and entries
     * without an id are new keywords. The group's list then holds the entries'
     * ids in the new order, kept keywords take the new content, new keywords
     * are created from their entry, the unkept old keywords are deleted, and
     * nothing else changes.
     */
    method UpdateKeywordGroup(keywordGroupId: Id, newKeywords: seq<KeywordData>)
      requires Valid() && keywordGroupId in nodes
      requires forall x | x in nodes[keywordGroupId].keywords :: x in nodes
      requires NoDuplicates(nodes[keywordGroupId].keywords) && keywordGroupId !in nodes[keywordGroupId].keywords
      requires CarriedIds(newKeywords) <= nodes[keywordGroupId].keywords
      modifies this
      ensures Valid()
      ensures var ids := AssignIds(newKeywords, old(nextId));
              keywordGroupId in nodes && nodes[keywordGroupId] == old(nodes)[keywordGroupId].(keywords := ids)
      ensures forall k | 0 <= k < |newKeywords| && newKeywords[k].id.Some? ::
                var x := newKeywords[k].id.value;
                x in old(nodes) && x in nodes && nodes[x] == old(nodes)[x].(content := newKeywords[k].content)
      ensures forall k | 0 <= k < |newKeywords| && newKeywords[k].id.None? ::
                var x := AssignIds(newKeywords, old(nextId))[k];
                x !in old(nodes) && x in nodes && nodes[x] == KeywordNode(newKeywords[k].content)
      ensures forall x | x in old(nodes) && x != keywordGroupId && x !in old(nodes)[keywordGroupId].keywords ::
                x in nodes && nodes[x] == old(nodes)[x]
      ensures forall x | x in old(nodes) ::
                (x in nodes <==> x !in old(nodes)[keywordGroupId].keywords[|CarriedIds(newKeywords)|..])
      ensures nextId == old(nextId) + FreshCount(newKeywords)
      ensures forall x | x in nodes :: x in old(nodes) || old(nextId) <= x < nextId
      ensures forall x | old(nextId) <= x < nextId :: x in nodes
      ensures trace == old(trace) +
                Plan(keywordGroupId, Snapshot(old(nodes), old(nodes)[keywordGroupId].keywords), newKeywords, 0, old(nextId))
      ensures assets == old(assets) && selection == old(selection)
      ensures old(Registered()) ==> Registered()
    {
      var oldKeywords := nodes[keywordGroupId].keywords;
      ghost var m := MergeStart(keywordGroupId, oldKeywords, nodes, newKeywords, nextId, trace);
      Begin(m);
      var L := |oldKeywords|;
      var M := |newKeywords|;
      var idx := 0;
      var idx1 := 0;
      var idx2 := 0;
      while idx1 < L || idx2 < M
        invariant idx == idx2
        invariant Reconciling(m, nodes, nextId, trace, idx1, idx2)
        invariant assets == old(assets) && selection == old(selection)
        invariant old(Registered()) ==> Registered()
        decreases (L - idx1) + (M - idx2)
      {
        if idx1 >= L {
          AppendRemaining(keywordGroupId, oldKeywords, newKeywords, m, idx, idx1, idx2);
          idx := idx + 1;
          idx2 := idx2 + 1;
        } else if idx2 >= M {
          RemoveRemaining(keywordGroupId, oldKeywords, newKeywords, m, idx, idx1, idx2);
          idx1 := idx1 + 1;
        } else if Some(oldKeywords[idx1]) == newKeywords[idx2].id {
          UpdateMatched(keywordGroupId, oldKeywords, newKeywords, m, idx, idx1, idx2);
          idx := idx + 1;
          idx1 := idx1 + 1;
          idx2 := idx2 + 1;
        } else {
          InsertUnmatched(keywordGroupId, oldKeywords, newKeywords, m, idx, idx1, idx2);
          idx := idx + 1;
          idx2 := idx2 + 1;
        }
      }
      Finish(m, nodes, nextId, trace, idx1, idx2);
    }

    /** The merge step when the old list is exhausted: create the entry's keyword and append it. */
    method AppendRemaining(g: Id, list0: seq<Id>, news: seq<KeywordData>, ghost m: MergeStart, idx: nat, idx1: nat, idx2: nat)
      requires m.g == g && m.list0 == list0 && m.news == news && idx == idx2
      requires Reconciling(m, nodes, nextId, trace, idx1, idx2) && idx1 >= |list0| && idx2 < |news|
      modifies this
      ensures Reconciling(m, nodes, nextId, trace, idx1, idx2 + 1)
      ensures assets == old(assets) && selection == old(selection)
      ensures old(Registered()) ==> Registered()
    {
      ReconcilingValid(m, nodes, nextId, trace, idx1, idx2);
      StepReady(m, nodes, nextId, trace, idx1, idx2);
      var kwd := CreateNode(KeywordNode(news[idx2].content));
      AppendChildTo(g, Keywords, kwd);
      AppendStep(m, old(nodes), kwd, old(trace), idx1, idx2, nodes);
    }

    /** The merge step when the new list is exhausted: remove the old keyword at `idx` and deep-delete it. */
    method RemoveRemaining(g: Id, list0: seq<Id>, news: seq<KeywordData>, ghost m: MergeStart, idx: nat, idx1: nat, idx2: nat)
      requires m.g == g && m.list0 == list0 && m.news == news && idx == idx2
      requires Reconciling(m, nodes, nextId, trace, idx1, idx2) && idx1 < |list0| && idx2 >= |news|
      modifies this
      ensures Reconciling(m, nodes, nextId, trace, idx1 + 1, idx2)
      ensures assets == old(assets) && selection == old(selection)
      ensures old(Registered()) ==> Registered()
    {
      var x := list0[idx1];
      StepReady(m, nodes, nextId, trace, idx1, idx2);
      RemoveChildAt(g, Keywords, idx);
      DeepDeleteNode(x);
      RemoveStep(m, old(nodes), nextId, old(trace), idx1, idx2, nodes);
    }

    /** The merge step on equal ids: set the kept keyword's content if it differs. */
    method UpdateMatched(g: Id, list0: seq<Id>, news: seq<KeywordData>, ghost m: MergeStart, idx: nat, idx1: nat, idx2: nat)
      requires m.g == g && m.list0 == list0 && m.news == news && idx == idx2
      requires Reconciling(m, nodes, nextId, trace, idx1, idx2) && idx1 < |list0| && idx2 < |news|
      requires Some(list0[idx1]) == news[idx2].id
      modifies this
      ensures Reconciling(m, nodes, nextId, trace, idx1 + 1, idx2 + 1)
      ensures assets == old(assets) && selection == old(selection)
      ensures old(Registered()) ==> Registered()
    {
      var kwd1 := list0[idx1];
      StepReady(m, nodes, nextId, trace, idx1, idx2);
      if nodes[kwd1].content != news[idx2].content {
        SetNodeContent(kwd1, news[idx2].content);
      }
      MatchStep(m, old(nodes), nextId, old(trace), idx1, idx2, nodes, trace);
    }

    /** The merge step on different ids: create the entry's keyword and insert it at `idx`. */
    method InsertUnmatched(g: Id, list0: seq<Id>, news: seq<KeywordData>, ghost m: MergeStart, idx: nat, idx1: nat, idx2: nat)
      requires m.g == g && m.list0 == list0 && m.news == news && idx == idx2
      requires Reconciling(m, nodes, nextId, trace, idx1, idx2) && idx1 < |list0| && idx2 < |news|
      requires Some(list0[idx1]) != news[idx2].id
      modifies this
      ensures Reconciling(m, nodes, nextId, trace, idx1, idx2 + 1)
      ensures assets == old(assets) && selection == old(selection)
      ensures old(Registered()) ==> Registered()
    {
      ReconcilingValid(m, nodes, nextId, trace, idx1, idx2);
      StepReady(m, nodes, nextId, trace, idx1, idx2);
      var kwd := CreateNode(KeywordNode(news[idx2].content));
      InsertChildAt(g, Keywords, idx, kwd);
      InsertStep(m, old(nodes), kwd, old(trace), idx1, idx2, nodes);
    }

    /**
     * A new keyword group created from the given data, appended to the panel's
     * `keywords` or put directly after the given group; it becomes the selection.
     */
    method InsertKeywordGroupAfter(panelId: Id, data: Node, currentKeywordGroupId: Option<Id>)
      requires Valid() && panelId in nodes
      requires currentKeywordGroupId.Some? ==>
                 currentKeywordGroupId.value in nodes && currentKeywordGroupId.value in nodes[panelId].keywords
      modifies this
      ensures Valid()
      ensures var id := old(nextId);
              var groups := old(nodes)[panelId].keywords;
              var pos := InsertIndex(groups, currentKeywordGroupId);
              && id !in old(nodes) && nextId == id + 1
              && nodes == old(nodes)[id := data][panelId := old(nodes)[panelId].(keywords := InsertAt(groups, pos, id))]
              && trace == old(trace) + [Create(id, data), InsertChild(panelId, Keywords, pos, id)]
              && selection == NodeSelection(id)
      ensures assets == old(assets)
      ensures old(Registered()) && RefsBelow(data, |assets|) ==> Registered()
    {
      var insertPos := |nodes[panelId].keywords|;
      if currentKeywordGroupId.Some? {
        insertPos := IndexOf(nodes[panelId].keywords, currentKeywordGroupId.value) + 1;
      }
      var newKwdGroup := CreateNode(data);
      InsertChildAt(panelId, Keywords, insertPos, newKwdGroup);
      SelectItem(newKwdGroup);
    }

    /** `addResource`: a new resource appended to the root's resources. */
    method AddResource(data: NodeData) returns (id: Id, node: Node)
      requires Valid() && rootId in nodes
      modifies this
      ensures Valid()
      ensures id == old(nextId) && id !in old(nodes) && nextId == id + 1
      ensures node == Assign(ResourceDefaults(), data)
      ensures nodes == old(nodes)[id := node][rootId := old(nodes)[rootId].(resources := old(nodes)[rootId].resources + [id])]
      ensures trace == old(trace) + [Create(id, node), InsertChild(rootId, Resources, |old(nodes)[rootId].resources|, id)]
      ensures selection == NodeSelection(id) && assets == old(assets)
      ensures old(Registered()) && RefsBelow(node, |assets|) ==> Registered()
    {
      ghost var resources := nodes[rootId].resources;
      id, node := InsertResourceAfter(data, None);
      assert InsertAt(resources, |resources|, id) == Append(resources, id);
    }

    /**
     * A new resource node from the defaults `{type: 'resource'}` overridden by
     * the given fields, appended to the root's resources or put directly after
     * the given one; it becomes the selection and is returned.
     */
    method InsertResourceAfter(data: NodeData, currentFileId: Option<Id>) returns (id: Id, node: Node)
      requires Valid() && rootId in nodes
      requires currentFileId.Some? ==> currentFileId.value in nodes && currentFileId.value in nodes[rootId].resources
      modifies this
      ensures Valid()
      ensures var resources := old(nodes)[rootId].resources;
              var pos := InsertIndex(resources, currentFileId);
              && id == old(nextId) && id !in old(nodes) && nextId == id + 1
              && node == Assign(ResourceDefaults(), data)
              && nodes == old(nodes)[id := node][rootId := old(nodes)[rootId].(resources := InsertAt(resources, pos, id))]
              && trace == old(trace) + [Create(id, node), InsertChild(rootId, Resources, pos, id)]
              && selection == NodeSelection(id) && assets == old(assets)
      ensures old(Registered()) && RefsBelow(node, |assets|) ==> Registered()
    {
      var insertPos := |nodes[rootId].resources|;
      if currentFileId.Some? {
        insertPos := IndexOf(nodes[rootId].resources, currentFileId.value) + 1;
      }
      var nodeData := Assign(ResourceDefaults(), data);
      id := CreateNode(nodeData);
      InsertChildAt(rootId, Resources, insertPos, id);
      SelectItem(id);
      node := nodes[id];
    }

    /**
     * Appends a file id to the panel's `files` (no check for a duplicate or for
     * the file's existence) and selects that value of the panel.
     */
    method AttachFile(panelId: Id, fileId: Id)
      requires Valid()
      requires panelId in nodes
      modifies this
      ensures Valid()
      ensures nodes == old(nodes)[panelId := old(nodes)[panelId].(files := old(nodes)[panelId].files + [fileId])]
      ensures trace == old(trace) + [AppendChild(panelId, Files, fileId)]
      ensures selection == ValueSelection(panelId, "files", fileId)
      ensures nextId == old(nextId) && assets == old(assets)
      ensures old(Registered()) ==> Registered()
    {
      AppendChildTo(panelId, Files, fileId);
      SelectValueOf(panelId, "files", fileId);
    }

    /**
     * Appends a resource id to the panel's `resources` (no check for a
     * duplicate or for the resource's existence) and selects that value of the panel.
     */
    method AttachResource(panelId: Id, resourceId: Id)
      requires Valid()
      requires panelId in nodes
      modifies this
      ensures Valid()
      ensures nodes == old(nodes)[panelId := old(nodes)[panelId].(resources := old(nodes)[panelId].resources + [resourceId])]
      ensures trace == old(trace) + [AppendChild(panelId, Resources, resourceId)]
      ensures selection == ValueSelection(panelId, "resources", resourceId)
      ensures nextId == old(nextId) && assets == old(assets)
      ensures old(Registered()) ==> Registered()
    {
      AppendChildTo(panelId, Resources, resourceId);
      SelectValueOf(panelId, "resources", resourceId);
    }

    /** Selects a value of a node, looking the node up first when it is given by id. */
    method SelectValue(node: NodeArg, propertyName: string, valueId: Id)
      requires Valid()
      requires node.ById? ==> node.id in nodes
      modifies this
      ensures Valid()
      ensures var nodeId := if node.ById? then node.id else node.nodeId;
              selection == ValueSelection(nodeId, propertyName, valueId)
      ensures nodes == old(nodes) && nextId == old(nextId) && assets == old(assets) && trace == old(trace)
    {
      var nodeId := match node
        case ById(id) => id
        case ByNode(n) => n;
      SelectValueOf(nodeId, propertyName, valueId);
    }
  }
}
