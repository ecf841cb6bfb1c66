/**
 * The document the editing layer works on: a store of typed nodes, each with
 * scalar attributes and named ordered id-lists; asset references handed out by
 * the asset archive; the selection pointer; and the record of store calls a
 * transaction body makes.
 */
module Document {
  import opened Options

  /** A node identifier, as issued by node creation. */
  type Id = nat

  /** An asset reference returned by the archive when a binary is registered. */
  type AssetId = nat

  /** A file picked by the user: its MIME type (`file.type`) and an opaque handle for the bytes. */
  datatype FileObject = FileObject(mimeType: string, handle: nat)

  /** What the archive registered: an optional descriptor name and the file itself. */
  datatype Asset = Asset(name: Option<string>, file: FileObject)

  /** The image of a panel: its asset reference `src` and its `mimeType`. */
  datatype ImageData = ImageData(src: Option<AssetId>, mimeType: Option<string>)

  /**
   * One node record: its `type` tag, text `content` (keywords), asset
   * reference `src` (files), embedded `image` (panels) and the four ordered
   * id-lists the editing layer edits.
   */
  datatype Node = Node(
    kind: string,
    content: string,
    src: Option<AssetId>,
    image: Option<ImageData>,
    panels: seq<Id>,
    files: seq<Id>,
    resources: seq<Id>,
    keywords: seq<Id>)

  /** Whether the node refers to asset `a`, by its own `src` or by its image's. */
  predicate RefersTo(n: Node, a: AssetId)
  {
    n.src == Some(a) || (n.image.Some? && n.image.value.src == Some(a))
  }

  /** Every asset reference the node holds is below `bound`. */
  predicate RefsBelow(n: Node, bound: nat)
    ensures RefsBelow(n, bound) <==> forall a: AssetId | RefersTo(n, a) :: a < bound
  {
    assert n.src.Some? ==> RefersTo(n, n.src.value);
    assert n.image.Some? && n.image.value.src.Some? ==> RefersTo(n, n.image.value.src.value);
    (n.src.Some? ==> n.src.value < bound) &&
    (n.image.Some? && n.image.value.src.Some? ==> n.image.value.src.value < bound)
  }

  /** The name of an id-list property. */
  datatype ListProp = Panels | Files | Resources | Keywords

  function Children(n: Node, p: ListProp): seq<Id>
  {
    match p
    case Panels => n.panels
    case Files => n.files
    case Resources => n.resources
    case Keywords => n.keywords
  }

  /** The node with list property `p` replaced by `s` and every other attribute kept. */
  function WithChildren(n: Node, p: ListProp, s: seq<Id>): (r: Node)
    ensures Children(r, p) == s
    ensures forall q | q != p :: Children(r, q) == Children(n, q)
    ensures r.kind == n.kind && r.content == n.content && r.src == n.src && r.image == n.image
  {
    match p
    case Panels => n.(panels := s)
    case Files => n.(files := s)
    case Resources => n.(resources := s)
    case Keywords => n.(keywords := s)
  }

  /** A record of the given type with no attributes set and empty lists. */
  function Blank(kind: string): Node
  {
    Node(kind, "", None, None, [], [], [], [])
  }

  /** The built-in panel template: a panel with an image that has no asset yet. */
  function DefaultPanelTemplate(): Node
  {
    Blank("panel").(image := Some(ImageData(None, None)))
  }

  /** A panel template with its image's `src` and `mimeType` overwritten and everything else kept. */
  function PanelFromTemplate(template: Node, asset: AssetId, mimeType: string): (r: Node)
    requires template.image.Some?
    ensures r.image == Some(template.image.value.(src := Some(asset), mimeType := Some(mimeType)))
    ensures r.(image := template.image) == template
  {
    template.(image := Some(template.image.value.(src := Some(asset), mimeType := Some(mimeType))))
  }

  /**
   * The template a panel offers for a new sibling panel: its type, attributes
   * and image, with none of its id-lists, so the new panel shares no child with it.
   */
  function TemplateOf(panel: Node): (r: Node)
    ensures r.kind == panel.kind && r.content == panel.content && r.src == panel.src && r.image == panel.image
    ensures forall p :: Children(r, p) == []
  {
    panel.(panels := [], files := [], resources := [], keywords := [])
  }

  /** The panel with its image's `src` pointed at `asset` and everything else kept. */
  function WithImageSrc(panel: Node, asset: AssetId): (r: Node)
    requires panel.image.Some?
    ensures r.image == Some(panel.image.value.(src := Some(asset)))
    ensures r.(image := panel.image) == panel
    ensures forall p :: Children(r, p) == Children(panel, p)
  {
    panel.(image := Some(panel.image.value.(src := Some(asset))))
  }

  /** The payload of a new file node: type `file` and `src` set to its asset. */
  function FileNode(asset: AssetId): Node
  {
    Blank("file").(src := Some(asset))
  }

  /** The payload of a new keyword node built from a keyword entry's content. */
  function KeywordNode(content: string): Node
  {
    Blank("keyword").(content := content)
  }

  /** The defaults a new resource starts from before the caller's fields override them. */
  function ResourceDefaults(): Node
  {
    Blank("resource")
  }

  /** Caller-supplied node fields; an absent field keeps the default. */
  datatype NodeData = NodeData(
    kind: Option<string>,
    content: Option<string>,
    src: Option<AssetId>,
    image: Option<ImageData>)

  function Override<T>(default: T, given: Option<T>): T
  {
    match given
    case Some(v) => v
    case None => default
  }

  /** `Object.assign(defaults, data)`: every field the data gives wins, the rest come from the defaults. */
  function Assign(defaults: Node, data: NodeData): (r: Node)
    ensures data.kind.Some? ==> r.kind == data.kind.value
    ensures data.kind.None? ==> r.kind == defaults.kind
    ensures data.content.Some? ==> r.content == data.content.value
    ensures data.content.None? ==> r.content == defaults.content
    ensures data.src.Some? ==> r.src == data.src
    ensures data.src.None? ==> r.src == defaults.src
    ensures data.image.Some? ==> r.image == data.image
    ensures data.image.None? ==> r.image == defaults.image
    ensures forall p :: Children(r, p) == Children(defaults, p)
  {
    defaults.(
      kind := Override(defaults.kind, data.kind),
      content := Override(defaults.content, data.content),
      src := if data.src.Some? then data.src else defaults.src,
      image := if data.image.Some? then data.image else defaults.image)
  }

  /** The selection pointer. */
  datatype Selection =
    | NoSelection
      /** The whole node, as `_selectItem` sets it. */
    | NodeSelection(nodeId: Id)
      /** `{type: 'custom', customType: 'value', nodeId, data: {property, valueId}}`. */
    | ValueSelection(nodeId: Id, property: string, valueId: Id)

  /** One call a transaction body makes on the document store. */
  datatype Edit =
    | Create(id: Id, node: Node)
    | InsertChild(parent: Id, prop: ListProp, pos: nat, child: Id)
    | AppendChild(parent: Id, prop: ListProp, child: Id)
    | RemoveChild(parent: Id, prop: ListProp, pos: nat)
    | DeepDelete(id: Id)
    | SetContent(id: Id, content: string)
    | SetImageSrc(id: Id, src: AssetId)
}
