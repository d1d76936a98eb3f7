/**
  * The template transform of the editor page: starting from a fresh parse
  * of the pristine template it sets the heading, swaps the main image,
  * updates or removes the partner block and rebuilds the start-list table,
  * then serialises the document behind a doctype line.
  *
  * The parse and the serialisation belong to the browser; they are
  * parameters here.
  */
module Template {
  import opened Wrappers
  import opened JsString
  import opened Dom
  import opened DomQuery

  const MainImageAlt: string := "Týčko tour Golf Park Slapy Svatý Jan"
  const PartnerLogoAlt: string := "Partner logo"
  const PartnerLabel: string := "Partner turnaje"
  const TimeHeading: string := "Čas"
  const Doctype: string := "<!DOCTYPE html>\n"

  const RowBackground: string := "#ffffff"
  const CellPadding: string := "8px 6px"
  const CellBorder: string := "1px solid #000000"
  const CellVerticalAlign: string := "top"
  const LeadingColumns: nat := 2
  const LeadingWeight: string := "600"
  const LeadingColor: string := "#268068"

  const MainImage: Query := TagAttr("img", "alt", MainImageAlt)
  const PartnerLogo: Query := TagAttr("img", "alt", PartnerLogoAlt)

  /** The element children an HTML parser places directly under `html`
      (`noframes` lands there after a `frameset`). */
  predicate IsSectionTag(t: string) {
    t == "head" || t == "body" || t == "frameset" || t == "noframes"
  }

  /** The shape of every document element the HTML parser produces. */
  predicate HtmlShape(r: Node) {
    HasTag(r, "html") &&
    forall i :: 0 <= i < |r.children| ==> (r.children[i].Element? ==> IsSectionTag(r.children[i].tag))
  }

  /** The document element of a parsed template. */
  type ParsedTree = r: Node | HtmlShape(r) witness Element("html", map[], map[], [])

  /** JavaScript truthiness of a `string | null`: null and "" are falsy. */
  predicate Truthy(s: Option<string>) {
    s.Some? && s.value != ""
  }

  /** The editor state the transform reads besides the template. */
  datatype Snapshot = Snapshot(
    mainHeading: string,
    uploadedImage: Option<string>,
    partnerLogo: Option<string>,
    startListData: Option<seq<seq<string>>>)

  // ------------------------------------------------------------ structure

  /** An element other than `html`, `head`, `body`, `frameset` and
      `noframes` sits at least two levels below the document element. */
  lemma DeepInHtml(r: Node, p: Path)
    requires HtmlShape(r) && ValidPath(r, p)
    requires At(r, p).Element? && At(r, p).tag != "html" && !IsSectionTag(At(r, p).tag)
    ensures |p| >= 2
  {
  }

  /** An edit two or more levels down keeps the document's shape. */
  lemma DeepEditKeepsShape(r: Node, p: Path, e: Edit)
    requires ValidPath(r, p) && Applicable(At(r, p), e) && |p| >= 2
    ensures HtmlShape(r) ==> HtmlShape(EditAt(r, p, e))
  {
    var r' := EditAt(r, p, e);
    assert r'.children[p[0]] == EditAt(r.children[p[0]], p[1..], e);
    assert forall i :: 0 <= i < |r.children| && i != p[0] ==> r'.children[i] == r.children[i];
  }

  /** Editing any element that is not `html`, `head`, `body`, `frameset` or
      `noframes` keeps the document's shape. */
  lemma InnerEditKeepsShape(r: Node, p: Path, e: Edit)
    requires ValidPath(r, p) && Applicable(At(r, p), e)
    requires At(r, p).Element? && At(r, p).tag != "html" && !IsSectionTag(At(r, p).tag)
    ensures HtmlShape(r) ==> HtmlShape(EditAt(r, p, e))
  {
    if HtmlShape(r) {
      DeepInHtml(r, p);
      DeepEditKeepsShape(r, p, e);
    }
  }

  // ---------------------------------------------------------------- steps

  /** Heading: `querySelector('h1')`, then `textContent = mainHeading`. */
  function HeadingStep(r: Node, mainHeading: string): (r': Node)
    ensures HtmlShape(r) ==> HtmlShape(r')
  {
    match FirstMatch(r, Tag("h1"))
    case None => r
    case Some(p) =>
      InnerEditKeepsShape(r, p, SetTextContent(mainHeading));
      EditAt(r, p, SetTextContent(mainHeading))
  }

  /** Main image: when `uploadedImage` is truthy, set `src` on the first
      `img[alt="Týčko tour Golf Park Slapy Svatý Jan"]`. */
  function MainImageStep(r: Node, uploadedImage: Option<string>): (r': Node)
    ensures HtmlShape(r) ==> HtmlShape(r')
  {
    if !Truthy(uploadedImage) then r
    else match FirstMatch(r, MainImage)
      case None => r
      case Some(p) =>
        InnerEditKeepsShape(r, p, SetAttribute("src", uploadedImage.value));
        EditAt(r, p, SetAttribute("src", uploadedImage.value))
  }

  /** The node before the partner logo's parent is the "Partner turnaje"
      text: index `k` of `siblings` holds the parent. */
  predicate PartnerLabelBefore(siblings: seq<Node>, k: nat) {
    0 < k <= |siblings| && siblings[k - 1].Text? && Trim(siblings[k - 1].data) == PartnerLabel
  }

  /** The partner block without a logo: remove the "Partner turnaje" text
      before the logo's parent when it is there, then the parent itself.
      `logo` is the logo's path; its parent has a parent of its own. */
  function RemovePartnerBlock(r: Node, logo: Path): Node
    requires ValidPath(r, logo) && |logo| >= 2
  {
    var parent := logo[..|logo| - 1];
    var grand := parent[..|parent| - 1];
    var k := parent[|parent| - 1];
    ParentOfParent(r, logo);
    RemoveBlockAt(r, grand, k)
  }

  /** The logo's grandparent is an element holding the parent at index `k`. */
  lemma ParentOfParent(r: Node, logo: Path)
    requires ValidPath(r, logo) && |logo| >= 2
    ensures var parent := logo[..|logo| - 1];
      var grand := parent[..|parent| - 1];
      ValidPath(r, grand) && At(r, grand).Element? && parent[|parent| - 1] < |At(r, grand).children| &&
      parent == grand + [parent[|parent| - 1]]
  {
    var parent := logo[..|logo| - 1];
    var grand := parent[..|parent| - 1];
    var k := parent[|parent| - 1];
    PrefixValid(r, logo, |logo| - 1);
    PrefixValid(r, parent, |parent| - 1);
    assert parent == grand + [k];
    AtConcat(r, grand, [k]);
  }

  /** The partner-block removal for the parent at child `k` of `grand`. */
  function RemoveBlockAt(r: Node, grand: Path, k: nat): Node
    requires ValidPath(r, grand) && At(r, grand).Element? && k < |At(r, grand).children|
  {
    if PartnerLabelBefore(At(r, grand).children, k) then
      var textNode := grand + [k - 1];
      RemoveChildOf(r, grand, k - 1);
      var r1 := RemoveAt(r, textNode);
      AtConcat(r1, grand, [k - 1]);
      RemoveAt(r1, textNode)
    else
      RemoveChildOf(r, grand, k);
      RemoveAt(r, grand + [k])
  }

  /** Partner logo: with a truthy `partnerLogo` set the logo's `src`;
      otherwise remove the partner block. */
  function PartnerLogoStep(r: Node, partnerLogo: Option<string>): Node
    requires HtmlShape(r)
  {
    match FirstMatch(r, PartnerLogo)
    case None => r
    case Some(p) =>
      if Truthy(partnerLogo) then EditAt(r, p, SetAttribute("src", partnerLogo.value))
      else DeepInHtml(r, p); RemovePartnerBlock(r, p)
  }

  /** The `tbody` the start list goes into: in the `table` around the first
      `th` whose trimmed text is "Čas", its first `tbody` descendant. */
  function StartListBody(r: Node): (b: Option<Path>)
    ensures b.Some? ==> ValidPath(r, b.value) && HasTag(At(r, b.value), "tbody")
  {
    match FindByTrimmedText(r, AllMatches(r, Tag("th")), TimeHeading)
    case None => None
    case Some(h) =>
      match Closest(r, h, "table")
      case None => None
      case Some(t) =>
        match FirstBelow(At(r, t), Tag("tbody"), 0)
        case None => None
        case Some(s) => AtConcat(r, t, s); Some(t + s)
  }

  /** The inline style of the cell in column `index`. */
  function CellStyle(index: nat): map<string, string> {
    var common := map["padding" := CellPadding]["border" := CellBorder]["vertical-align" := CellVerticalAlign];
    if index < LeadingColumns then common["text-align" := "center"]["font-weight" := LeadingWeight]["color" := LeadingColor]
    else common["text-align" := "left"]
  }

  /** The `td` built for `text` in column `index`. */
  function Cell(index: nat, text: string): Node {
    Element("td", map[], CellStyle(index), TextChildren(text))
  }

  /** The `tr` built for one start-list row. */
  function Row(cells: seq<string>): Node {
    Element("tr", map[], map["background-color" := RowBackground],
            seq(|cells|, j requires 0 <= j < |cells| => Cell(j, cells[j])))
  }

  function Rows(data: seq<seq<string>>): seq<Node> {
    seq(|data|, i requires 0 <= i < |data| => Row(data[i]))
  }

  lemma RowsSnoc(data: seq<seq<string>>, i: nat)
    requires i < |data|
    ensures Rows(data[..i + 1]) == Rows(data[..i]) + [Row(data[i])]
  {
    var a, b := Rows(data[..i + 1]), Rows(data[..i]) + [Row(data[i])];
    assert |a| == |b|;
    forall j | 0 <= j < |a| ensures a[j] == b[j] {
      assert data[..i + 1][j] == data[j];
    }
  }

  /** Start list: when `startListData` is non-null and the table body is
      found, its children become one row per entry. */
  function StartListStep(r: Node, startListData: Option<seq<seq<string>>>): Node {
    if startListData.None? then r
    else match StartListBody(r)
      case None => r
      case Some(b) => EditAt(r, b, ReplaceChildren(Rows(startListData.value)))
  }

  /** The whole transform of a freshly parsed template. */
  function Transform(tree: ParsedTree, s: Snapshot): Node {
    var afterHeading := HeadingStep(tree, s.mainHeading);
    var afterImage := MainImageStep(afterHeading, s.uploadedImage);
    var afterPartner := PartnerLogoStep(afterImage, s.partnerLogo);
    StartListStep(afterPartner, s.startListData)
  }

  // -------------------------------------------------- the parsed document

  /** The parsed document, edited in place. `root` is its document element. */
  class Document {
    var root: Node

    constructor (tree: Node)
      ensures root == tree
    {
      root := tree;
    }

    /** `node.textContent = value` */
    method SetTextContent(p: Path, value: string)
      requires ValidPath(root, p)
      modifies this
      ensures root == EditAt(old(root), p, Edit.SetTextContent(value))
    {
      root := EditAt(root, p, Edit.SetTextContent(value));
    }

    /** `element.setAttribute(name, value)` */
    method SetAttribute(p: Path, name: string, value: string)
      requires ValidPath(root, p) && At(root, p).Element?
      modifies this
      ensures root == EditAt(old(root), p, Edit.SetAttribute(name, value))
    {
      root := EditAt(root, p, Edit.SetAttribute(name, value));
    }

    /** `node.remove()` */
    method Remove(p: Path)
      requires ValidPath(root, p) && p != []
      modifies this
      ensures root == RemoveAt(old(root), p)
    {
      root := RemoveAt(root, p);
    }

    /** `element.innerHTML = ''` */
    method ClearChildren(p: Path)
      requires ValidPath(root, p) && At(root, p).Element?
      modifies this
      ensures root == EditAt(old(root), p, ReplaceChildren([]))
    {
      root := EditAt(root, p, ReplaceChildren([]));
    }

    /** `element.appendChild(child)` for a newly created `child` */
    method AppendChild(p: Path, child: Node)
      requires ValidPath(root, p) && At(root, p).Element?
      modifies this
      ensures root == EditAt(old(root), p, Edit.AppendChild(child))
    {
      root := EditAt(root, p, Edit.AppendChild(child));
    }
  }

  // ------------------------------------------------------- the transform

  method UpdateHeading(doc: Document, mainHeading: string)
    modifies doc
    ensures doc.root == HeadingStep(old(doc.root), mainHeading)
  {
    var headingElement := FirstMatch(doc.root, Tag("h1"));
    if headingElement.Some? {
      doc.SetTextContent(headingElement.value, mainHeading);
    }
  }

  method UpdateMainImage(doc: Document, uploadedImage: Option<string>)
    modifies doc
    ensures doc.root == MainImageStep(old(doc.root), uploadedImage)
  {
    if Truthy(uploadedImage) {
      var imgElement := FirstMatch(doc.root, MainImage);
      if imgElement.Some? {
        doc.SetAttribute(imgElement.value, "src", uploadedImage.value);
      }
    }
  }

  method UpdatePartnerLogo(doc: Document, partnerLogo: Option<string>)
    requires HtmlShape(doc.root)
    modifies doc
    ensures doc.root == PartnerLogoStep(old(doc.root), partnerLogo)
  {
    var partnerLogoImg := FirstMatch(doc.root, PartnerLogo);
    if Truthy(partnerLogo) {
      if partnerLogoImg.Some? {
        doc.SetAttribute(partnerLogoImg.value, "src", partnerLogo.value);
      }
    } else if partnerLogoImg.Some? {
      DeepInHtml(doc.root, partnerLogoImg.value);
      // Every element of a document has a parent, so the source's null
      // check always passes. The logo's parent is never the document
      // element, so the node its sibling and its removal refer to, the
      // grandparent, is an element of the tree.
      RemovePartner(doc, partnerLogoImg.value);
    }
  }

  /** Removes the "Partner turnaje" text before the logo's parent when it
      is there, then the parent. */
  method RemovePartner(doc: Document, logo: Path)
    requires ValidPath(doc.root, logo) && |logo| >= 2
    modifies doc
    ensures doc.root == RemovePartnerBlock(old(doc.root), logo)
  {
    var parent := logo[..|logo| - 1];
    var grand := parent[..|parent| - 1];
    var k := parent[|parent| - 1];
    ParentOfParent(doc.root, logo);
    if PartnerLabelBefore(At(doc.root, grand).children, k) {
      var textNode := grand + [k - 1];
      RemoveChildOf(doc.root, grand, k - 1);
      doc.Remove(textNode);
      AtConcat(doc.root, grand, [k - 1]);
      // With the text gone the parent has moved to index k - 1.
      doc.Remove(textNode);
    } else {
      RemoveChildOf(doc.root, grand, k);
      doc.Remove(parent);
    }
  }

  /** The `forEach` over one row's cells: a `td` per cell, appended to a
      new `tr`. */
  method BuildRow(rowData: seq<string>) returns (tr: Node)
    ensures tr == Row(rowData)
  {
    tr := Element("tr", map[], map[], []);
    tr := Apply(tr, SetStyleProperty("background-color", RowBackground));
    var index := 0;
    while index < |rowData|
      invariant 0 <= index <= |rowData|
      invariant tr.Element? && tr.tag == "tr" && tr.attrs == map[]
      invariant tr.style == map["background-color" := RowBackground]
      invariant |tr.children| == index
      invariant forall j :: 0 <= j < index ==> tr.children[j] == Cell(j, rowData[j])
    {
      var td := Element("td", map[], map[], []);
      td := Apply(td, SetStyleProperty("padding", CellPadding));
      td := Apply(td, SetStyleProperty("border", CellBorder));
      td := Apply(td, SetStyleProperty("vertical-align", CellVerticalAlign));
      td := Apply(td, SetTextContent(rowData[index]));
      if index < LeadingColumns {
        td := Apply(td, SetStyleProperty("text-align", "center"));
        td := Apply(td, SetStyleProperty("font-weight", LeadingWeight));
        td := Apply(td, SetStyleProperty("color", LeadingColor));
      } else {
        td := Apply(td, SetStyleProperty("text-align", "left"));
      }
      tr := Apply(tr, AppendChild(td));
      index := index + 1;
    }
  }

  method UpdateStartList(doc: Document, startListData: Option<seq<seq<string>>>)
    modifies doc
    ensures doc.root == StartListStep(old(doc.root), startListData)
  {
    if startListData.Some? {
      var data := startListData.value;
      var tbody := StartListBody(doc.root);
      if tbody.Some? {
        var b := tbody.value;
        ghost var r0 := doc.root;
        doc.ClearChildren(b);
        assert Rows(data[..0]) == [];
        var i := 0;
        while i < |data|
          invariant 0 <= i <= |data|
          invariant doc.root == EditAt(r0, b, ReplaceChildren(Rows(data[..i])))
        {
          var tr := BuildRow(data[i]);
          ReplaceChildrenThenAppend(r0, b, Rows(data[..i]), tr);
          doc.AppendChild(b, tr);
          RowsSnoc(data, i);
          i := i + 1;
        }
        assert data[..i] == data;
      }
    }
  }

  /** `updateTemplate`: with an empty template the preview stays as it is;
      otherwise it becomes the doctype line followed by the serialised
      transform of a fresh parse, a function of the template and the
      snapshot alone. */
  method UpdateTemplate(originalHtml: string, parse: string -> ParsedTree, serialize: Node -> string,
                        state: Snapshot, modifiedHtml: string)
    returns (newModifiedHtml: string)
    ensures originalHtml == "" ==> newModifiedHtml == modifiedHtml
    ensures originalHtml != "" ==>
      newModifiedHtml == Doctype + serialize(Transform(parse(originalHtml), state))
  {
    if originalHtml == "" {
      return modifiedHtml;
    }
    var doc := new Document(parse(originalHtml));
    UpdateHeading(doc, state.mainHeading);
    UpdateMainImage(doc, state.uploadedImage);
    UpdatePartnerLogo(doc, state.partnerLogo);
    UpdateStartList(doc, state.startListData);
    newModifiedHtml := Doctype + serialize(doc.root);
  }
}
