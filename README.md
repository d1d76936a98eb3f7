# Start-list template editor: the template transform

The editor page of the golf-tournament start-list tool keeps a pristine HTML
template and some editor state: the main heading, an uploaded main image, a
partner logo and the start list read from a CSV file. Whenever that state
changes, `updateTemplate` parses the pristine template again and makes these
edits, in this order:

- it sets the text of the first `h1`;
- when an image was uploaded, it sets the `src` of the first
  `img[alt="Týčko tour Golf Park Slapy Svatý Jan"]`;
- with a partner logo, it sets the `src` of the first
  `img[alt="Partner logo"]`. Without one, it removes that image's parent
  node. It also removes the node just before that parent when that node is a
  text node reading "Partner turnaje" once trimmed;
- it finds the first `th` whose trimmed text is "Čas", the `table` around it
  and that table's first `tbody`. It then replaces the body's rows with one
  white `tr` per start-list entry, holding one styled `td` per cell. The first
  two columns are centred, bold and green.

It then serialises the document behind a `<!DOCTYPE html>` line. The CSV
upload handler accepts only file names ending in `.csv`. It drops the header
row and every row whose cells are all blank after trimming.

The model is organised like this:

- **The document** is a value tree (`Dom.Node`). A node is addressed by its
  path of child indices from the document element. Each DOM mutation the
  editor uses is a `Dom.Edit` applied at a path (`Dom.EditAt`).
- **The lookups** (`DomQuery`) model `querySelector`, `querySelectorAll`,
  `find` over its result, and `closest`, all in pre-order tree order.
- **Editing in place** is modelled by `Template.Document`, a class holding the
  parsed tree. The editor's steps are methods (`UpdateHeading`, …) that change
  the document, each proved equal to a step function (`HeadingStep`, …).
- **The properties** of the step functions are proved in
  `TemplateProperties`.
- **The filter and the name guard** of the CSV upload are in `StartList`.
- **The two JavaScript string operations** used, `trim` and `endsWith`, are
  in `JsString`.

The browser's HTML parser and `XMLSerializer` are parameters of
`Template.UpdateTemplate`. What the model assumes of the parser is only the
shape every parsed document has: an `html` root whose element children are
`head`, `body`, `frameset` or `noframes` (`Template.ParsedTree`). Every
element of a document has a parent, so the source's `if (parent)` check is
always true and the model has no branch for it. What the shape supplies is
that the logo's parent is never the document element itself. So the node in
which `previousSibling` and `remove()` act, the logo's grandparent, is an
element of the modelled tree.

## Model

| member | source | states |
|---|---|---|
| Template.UpdateTemplate | src/app/page.tsx:48-124 | With an empty template the preview text stays as it was. Otherwise it is the doctype line followed by the serialised transform of a fresh parse, so it depends only on the template and the current editor state. |
| Template.Transform | src/app/page.tsx:52-118 | The four steps in source order on a fresh parse. `UpdateTemplate` is proved to compute it, and the lemmas on each step state what it does. |
| Template.PartnerLogoStep | src/app/page.tsx:67-85 | The partner step. Its meaning is stated by `PartnerLogoSetsSrc` when a logo is set, and by `PartnerBlockRemoved` with `RemovePartnerBlockSpec` when none is. |
| Template.RemovePartnerBlock | src/app/page.tsx:75-83 | The removal of the partner block for a logo path. `RemovePartnerBlockSpec` states its effect. |
| Template.RemoveBlockAt | src/app/page.tsx:78-82 | The same removal for the parent at child `k` of the grandparent. `RemoveBlockAtSpec` states its effect. |
| Template.StartListStep | src/app/page.tsx:87-117 | The start-list step. `StartListFillsBody`, `StartListBodyIsLookup`, `RowsLayout` and `RowCellLayout` state what it does. |
| StartList.StartListRows | src/app/page.tsx:185 | `data.slice(1)` followed by the row filter. `StartListRowsSpec` states what it keeps. |
| StartList.KeepNonBlank | src/app/page.tsx:185 | The row filter. It is characterised by `KeepNonBlankIsSubsequence`, `KeepNonBlankMembers`, `KeepNonBlankCount`, `KeepNonBlankLength` and `KeepNonBlankAppend`. |
| JsString.EndsWith | src/app/page.tsx:173 | `endsWith`. `EndsWithIff` characterises it. |
| DomQuery.Matches | src/app/page.tsx:55-91 | The selectors `h1`, `th`, `tbody` and `img[alt=…]`, and the `find` test on trimmed text. They are used through `FirstMatchIsFirst`, `FirstMatchNone` and `FindOverAllIsFirstMatch`. |
| DomQuery.AllMatches | src/app/page.tsx:88 | `querySelectorAll` in tree order. `FirstMatchIsHead` and `KeepOfAllMatches` relate it to `querySelector` and to the `find`. |
| DomQuery.FirstBelow | src/app/page.tsx:91 | `element.querySelector`: a valid path to a matching proper descendant. `FirstBelowIsFirst` proves it is the first one in tree order. |
| Dom.TextContent | src/app/page.tsx:79-89 | The `textContent` getter: a text or comment node's data, or the text of an element's descendant text nodes in order. `SetTextContentReadsBack` ties it to the setter. |
| Dom.EditAt | src/app/page.tsx:57-115 | One DOM mutation at a path. `EditAtTarget`, `EditAtElsewhere`, `EditAtSameOutside` and `EditAtOnlyNodeChanged` state its effect. |
| Dom.RemoveAt | src/app/page.tsx:80-82 | `remove()`: removing the node from its parent's children. `RemoveChildOf` states its effect. |
| Template.UpdateHeading | src/app/page.tsx:55-58 | The document after the heading step is `HeadingStep` of the document before it. |
| Template.UpdateMainImage | src/app/page.tsx:60-65 | The document after the image step is `MainImageStep` of the document before it. |
| Template.UpdatePartnerLogo | src/app/page.tsx:67-85 | The document after the partner step is `PartnerLogoStep` of the document before it. |
| Template.RemovePartner | src/app/page.tsx:75-83 | Removing the label text and then the parent in place, with the parent's index shifting after the first removal, gives `RemovePartnerBlock`. |
| Template.UpdateStartList | src/app/page.tsx:87-117 | Clearing the body and then appending rows one by one leaves the document equal to `StartListStep`, which replaces the body's children with `Rows(startListData)`. |
| Template.BuildRow | src/app/page.tsx:96-114 | The row built cell by cell equals `Row(rowData)`: a `tr` with a white background and cell `j` equal to `Cell(j, rowData[j])`. |
| Template.Document.SetTextContent | src/app/page.tsx:57 | `textContent =` on the node at a path is that edit, and the rest of the tree is rebuilt around it. |
| Template.Document.SetAttribute | src/app/page.tsx:63 | `setAttribute` on the element at a path is that edit, at that path only. |
| Template.Document.Remove | src/app/page.tsx:80-82 | `remove()` of the node at a path removes it from its parent's children. |
| Template.Document.ClearChildren | src/app/page.tsx:94 | `innerHTML = ''` leaves the element at the path with no children. |
| Template.Document.AppendChild | src/app/page.tsx:115 | `appendChild` puts the new node after the element's existing children. |
| Template.HeadingStep | src/app/page.tsx:55-58 | The heading edit keeps the document's html/head/body shape. |
| Template.MainImageStep | src/app/page.tsx:60-65 | The image edit keeps the document's shape. |
| Template.StartListBody | src/app/page.tsx:88-91 | A body that is found is a valid path to a `tbody` element. |
| Template.DeepEditKeepsShape | src/app/page.tsx:52-53 | An edit two levels or more below the document element leaves the parser's document shape intact. |
| Template.InnerEditKeepsShape | src/app/page.tsx:52-53 | Editing any element other than `html`, `head`, `body`, `frameset` or `noframes` keeps the document's shape. |
| Template.RowsSnoc | src/app/page.tsx:95-116 | The rows for the first `i + 1` entries are the rows for the first `i` entries plus row `i`. This is the step the `forEach` loop takes. |
| TemplateProperties.HeadingSetsFirstH1 | src/app/page.tsx:55-58 | With no `h1`, nothing changes. Otherwise the first `h1` stays the first and keeps its tag, attributes and style. Its text content reads back `mainHeading`. Its children are exactly one text node holding `mainHeading`, or none when `mainHeading` is "". Nothing outside it changes. |
| TemplateProperties.MainImageSetsSrc | src/app/page.tsx:60-65 | With a null or empty image, or no matching `img`, nothing changes. Otherwise the first matching image gets `src` set to the image and stays the first match. No other node changes, and no node is added or removed. |
| TemplateProperties.PartnerLogoSetsSrc | src/app/page.tsx:67-71 | With a logo, the first `Partner logo` image gets that `src` and stays the first match. No other node changes. Without such an image, nothing changes. |
| TemplateProperties.PartnerBlockRemoved | src/app/page.tsx:72-85 | Without a logo, the first `Partner logo` image lies at least two levels down, and the step removes the partner block around it. |
| TemplateProperties.RemovePartnerBlockSpec | src/app/page.tsx:75-83 | The logo's parent leaves its parent's children. The sibling just before it leaves too, exactly when that sibling is a text node that trims to "Partner turnaje". Every other sibling stays in order, the grandparent keeps its label, and nothing outside the grandparent changes. |
| TemplateProperties.RemoveBlockAtSpec | src/app/page.tsx:78-82 | For the parent at child `k` of the grandparent: children `k - 1` and `k` both go when child `k - 1` is the "Partner turnaje" text, otherwise only child `k` goes. Nothing outside the grandparent changes. |
| TemplateProperties.RemoveLabelAndParent | src/app/page.tsx:80-82 | Removing the text at `k - 1` and then the node that moved into its place (the parent) removes exactly the old children `k - 1` and `k`. |
| Template.ParentOfParent | src/app/page.tsx:75-76 | The logo's parent path ends in an index `k` into the children of an element, its grandparent. |
| TemplateProperties.StartListBodyNeedsHeader | src/app/page.tsx:88-90 | `find` over the `th` elements is the first `th` in tree order whose trimmed text is "Čas". Without such a header no body is found. |
| TemplateProperties.StartListBodyIsLookup | src/app/page.tsx:88-93 | A body is found exactly when a `th` trims to "Čas", a `table` encloses the first such header and a `tbody` lies below that table. The table is the header's nearest enclosing one, and the body is the table's first `tbody` descendant in tree order. A missing header, table or body means no body, and then the tree is left as it is. |
| TemplateProperties.StartListFillsBody | src/app/page.tsx:87-117 | With null data, or no body found, nothing changes. Otherwise the body stays a `tbody` with its own label, its children become one row per entry, and nothing outside it changes. |
| TemplateProperties.CellLayout | src/app/page.tsx:100-112 | A cell is a `td` with no attributes. Its text reads back the cell data. It has the common padding, border and vertical alignment. Columns 0 and 1 are centred, weight 600, colour #268068. Later columns are left-aligned, with no weight or colour set. |
| TemplateProperties.RowsLayout | src/app/page.tsx:95-98 | There is one row per entry, for empty data too. Each row is a white `tr` with no attributes and one cell per datum; a row with no data is an empty white `tr`. |
| TemplateProperties.RowCellLayout | src/app/page.tsx:99-114 | Cell `j` of row `i` is the styled cell for column `j` and reads back `startListData[i][j]`. |
| DomQuery.FirstMatch | src/app/page.tsx:55 | `querySelector` answers a valid path to a matching node. |
| DomQuery.FirstMatchIsFirst | src/app/page.tsx:55 | Whenever some node matches, `querySelector` finds one, and no later in tree order than any other match. |
| DomQuery.FirstMatchNone | src/app/page.tsx:56 | `querySelector` answers null exactly when no node matches (both directions). |
| DomQuery.FirstMatchIsHead | src/app/page.tsx:88 | `querySelector` answers the first entry of `querySelectorAll`. |
| DomQuery.FirstMatchAfterEdit | src/app/page.tsx:61-63 | Editing the first match of a selector so that it still matches leaves it the first match. |
| DomQuery.FindByTrimmedText | src/app/page.tsx:89 | A `find` result is one of the candidates, and its trimmed text is the text looked for. |
| DomQuery.FindOverAllIsFirstMatch | src/app/page.tsx:88-89 | `Array.from(querySelectorAll(tag)).find(trimmed text is t)` is the first `tag` element in tree order whose trimmed text is `t`. |
| DomQuery.KeepOfAllMatches | src/app/page.tsx:88-89 | Filtering `querySelectorAll(tag)` by trimmed text is `querySelectorAll` of the combined condition. |
| DomQuery.Closest | src/app/page.tsx:90 | `closest` answers the nearest inclusive ancestor with the tag: no node between it and the start has the tag. It answers null when no inclusive ancestor has the tag. |
| Dom.SetTextContentReadsBack | src/app/page.tsx:57 | After `textContent = v`, `textContent` reads `v`. |
| Dom.EditAtTarget | src/app/page.tsx:57 | After an edit at a path, the node at that path is the edit applied to the old node. |
| Dom.EditAtElsewhere | src/app/page.tsx:63 | An edit at a path changes nothing outside that node's subtree. Ancestors keep their labels and all other nodes are untouched. |
| Dom.EditAtSameOutside | src/app/page.tsx:57 | An edit at a path changes nothing outside that node's subtree. |
| Dom.EditAtOnlyNodeChanged | src/app/page.tsx:63 | An attribute edit changes no node but its target, and no node is added or removed. |
| Dom.RemoveChildOf | src/app/page.tsx:80-82 | Removing child `k` leaves its parent with the other children in order and changes nothing outside the parent. |
| Dom.ReplaceChildrenThenAppend | src/app/page.tsx:94-115 | Appending to an element whose children were replaced by `cs` is replacing them by `cs` followed by the new node. |
| Dom.SameOutsideTrans | src/app/page.tsx:80-82 | Two successive changes confined to the same subtree stay confined to it. |
| Dom.AtConcat | src/app/page.tsx:90-91 | Walking a path and then a further path reaches the same node as walking their concatenation. |
| StartList.CsvUpload | src/app/page.tsx:170-190 | No file, or a name not ending in `.csv`, leaves the start list unchanged. A `.csv` file sets it to the filtered rows. |
| StartList.StartListRowsSpec | src/app/page.tsx:185 | The kept rows are drawn in order from the rows after the header. They are exactly the non-blank ones (both directions), each as many times as it occurs there. There are at most `n - 1` of them, and none for empty data. |
| StartList.KeepNonBlankCount | src/app/page.tsx:185 | A row with content survives as many times as it occurs; a blank row never does. |
| StartList.BlankRowIff | src/app/page.tsx:185 | A row is dropped exactly when every cell is white space only. |
| StartList.KeepNonBlankIsSubsequence | src/app/page.tsx:185 | Filtering keeps the surviving rows in their order. |
| StartList.KeepNonBlankMembers | src/app/page.tsx:185 | A row survives exactly when it occurs in the input and has a non-blank cell. |
| StartList.KeepNonBlankLength | src/app/page.tsx:185 | Filtering never adds rows. |
| StartList.KeepNonBlankAppend | src/app/page.tsx:185 | Filtering a concatenation is concatenating the filtered parts. |
| JsString.TrimStart | src/app/page.tsx:185 | Leading white space is dropped: the result is a suffix and starts with no white space. |
| JsString.TrimEnd | src/app/page.tsx:185 | Trailing white space is dropped: the result is a prefix and ends with no white space. |
| JsString.Trim | src/app/page.tsx:79 | A trimmed string neither starts nor ends with white space. |
| JsString.TrimIsSlice | src/app/page.tsx:89 | `trim` keeps a contiguous slice, and everything on either side of it is white space. |
| JsString.TrimIdempotent | src/app/page.tsx:185 | Trimming twice is trimming once. |
| JsString.TrimEmptyIff | src/app/page.tsx:185 | A string trims to "" exactly when it is white space only (both directions). |
| JsString.EndsWithIff | src/app/page.tsx:173 | `endsWith` holds exactly when the string is some stem followed by the suffix. |

## Left out

- Parsing the template (`DOMParser`) and serialising it (`XMLSerializer`): these belong to the browser. They are function parameters of `Template.UpdateTemplate`. Of the parser, the model assumes only the shape of the document element.
- Fetching `/template.html` at start-up, and its error toast: network I/O.
- The image and partner-logo upload handlers (`FileReader`, data URLs, the `image/` MIME check): browser I/O. The model takes the resulting strings as the `uploadedImage` and `partnerLogo` inputs.
- CSV parsing (`Papa.parse` with `skipEmptyLines`): a library call. `StartList.UploadedFile` carries the rows the parser produced.
- The download handler and the rendering of the page: browser I/O and presentation only.
- React state handling, the effect that re-runs the transform, and `isProcessing`: the model takes the state as a `Template.Snapshot`.
- The toasts and the `csvFile` display state: no effect on the template.
- `src/components/template-preview.tsx` and `src/app/api/proxy/route.ts`: these are not part of this model. They display the result and proxy requests.
- CSS values are stored exactly as written. A browser's CSSOM may normalise them on serialisation (for example `#ffffff` to `rgb(255, 255, 255)`) and expands shorthands such as `padding` and `border`. `td.style.textAlign` and friends are modelled as one entry per property name.
- Node identity is modelled by paths. The model is sound for this code because each step looks its nodes up afresh, and the two removals account for the index shift in between.
- Strings are sequences of Unicode scalar values, not UTF-16 code units. This differs from JavaScript only for astral characters, which `trim` and `endsWith` here treat alike.
- `querySelector`, `querySelectorAll` and `closest` are modelled only for the selector forms the editor uses: a tag name, and a tag with one attribute value.
- This code does not hide the partner row, wrap the logo in a link, replace placeholder text or export a PDF. Without a partner logo it removes the partner block, and the model does the same.
