/**
  * What each step of the template transform guarantees, stated on the
  * step functions that the editor's methods are proved to compute.
  */
module TemplateProperties {
  import opened Wrappers
  import opened JsString
  import opened Dom
  import opened DomQuery
  import opened Template

  /** The children of the element at `p`, or none when there is no element
      there. */
  function ChildrenAt(n: Node, p: Path): seq<Node> {
    if ValidPath(n, p) && At(n, p).Element? then At(n, p).children else []
  }

  // -------------------------------------------------------------- heading

  /** With an `h1` present, the first `h1` stays the first, reads back
      `mainHeading` and holds just the text that value makes (one Text node,
      none for ""); nothing outside it changes. Without one, nothing does. */
  lemma HeadingSetsFirstH1(r: Node, mainHeading: string)
    ensures FirstMatch(r, Tag("h1")).None? ==> HeadingStep(r, mainHeading) == r
    ensures FirstMatch(r, Tag("h1")).Some? ==>
      var p := FirstMatch(r, Tag("h1")).value;
      var r' := HeadingStep(r, mainHeading);
      FirstMatch(r', Tag("h1")) == Some(p) &&
      TextContent(At(r', p)) == mainHeading &&
      At(r', p).children == TextChildren(mainHeading) &&
      LabelOf(At(r', p)) == LabelOf(At(r, p)) &&
      SameOutside(r, r', p)
  {
    if FirstMatch(r, Tag("h1")).Some? {
      var p := FirstMatch(r, Tag("h1")).value;
      var e := SetTextContent(mainHeading);
      EditAtTarget(r, p, e);
      FirstMatchAfterEdit(r, Tag("h1"), p, e);
      SetTextContentReadsBack(At(r, p), mainHeading);
      EditAtSameOutside(r, p, e);
    }
  }

  // ----------------------------------------------------------- main image

  /** A truthy `uploadedImage` becomes the `src` of the first main-image
      `img`, which stays the first; no other node changes and no node is
      added or removed. A falsy one, or no such image, changes nothing. */
  lemma MainImageSetsSrc(r: Node, uploadedImage: Option<string>)
    ensures !Truthy(uploadedImage) ==> MainImageStep(r, uploadedImage) == r
    ensures FirstMatch(r, MainImage).None? ==> MainImageStep(r, uploadedImage) == r
    ensures Truthy(uploadedImage) && FirstMatch(r, MainImage).Some? ==>
      var p := FirstMatch(r, MainImage).value;
      var r' := MainImageStep(r, uploadedImage);
      FirstMatch(r', MainImage) == Some(p) &&
      At(r', p) == At(r, p).(attrs := At(r, p).attrs["src" := uploadedImage.value]) &&
      OnlyNodeChanged(r, r', p)
  {
    if Truthy(uploadedImage) && FirstMatch(r, MainImage).Some? {
      var p := FirstMatch(r, MainImage).value;
      var e := SetAttribute("src", uploadedImage.value);
      EditAtTarget(r, p, e);
      FirstMatchAfterEdit(r, MainImage, p, e);
      EditAtOnlyNodeChanged(r, p, e);
    }
  }

  // --------------------------------------------------------- partner logo

  /** A truthy `partnerLogo` becomes the `src` of the first `Partner logo`
      image only: every other node keeps its data and none is removed. */
  lemma PartnerLogoSetsSrc(r: Node, partnerLogo: Option<string>)
    requires HtmlShape(r)
    ensures FirstMatch(r, PartnerLogo).None? ==> PartnerLogoStep(r, partnerLogo) == r
    ensures Truthy(partnerLogo) && FirstMatch(r, PartnerLogo).Some? ==>
      var p := FirstMatch(r, PartnerLogo).value;
      var r' := PartnerLogoStep(r, partnerLogo);
      FirstMatch(r', PartnerLogo) == Some(p) &&
      At(r', p) == At(r, p).(attrs := At(r, p).attrs["src" := partnerLogo.value]) &&
      OnlyNodeChanged(r, r', p)
  {
    if Truthy(partnerLogo) && FirstMatch(r, PartnerLogo).Some? {
      var p := FirstMatch(r, PartnerLogo).value;
      var e := SetAttribute("src", partnerLogo.value);
      EditAtTarget(r, p, e);
      FirstMatchAfterEdit(r, PartnerLogo, p, e);
      EditAtOnlyNodeChanged(r, p, e);
    }
  }

  /** Removing the partner block takes the logo's parent out of its
      siblings, and the sibling just before it too exactly when that is a
      Text node trimming to "Partner turnaje"; the other siblings stay in
      order and nothing outside their parent changes. */
  lemma RemovePartnerBlockSpec(r: Node, logo: Path)
    requires ValidPath(r, logo) && |logo| >= 2
    ensures
      var parent := logo[..|logo| - 1];
      var grand := parent[..|parent| - 1];
      var k := parent[|parent| - 1];
      var before := ChildrenAt(r, grand);
      var r' := RemovePartnerBlock(r, logo);
      ValidPath(r, grand) && ValidPath(r', grand) && k < |before| &&
      LabelOf(At(r', grand)) == LabelOf(At(r, grand)) &&
      ChildrenAt(r', grand) ==
        (if PartnerLabelBefore(before, k) then before[..k - 1] + before[k + 1..]
         else before[..k] + before[k + 1..]) &&
      SameOutside(r, r', grand)
  {
    var parent := logo[..|logo| - 1];
    ParentOfParent(r, logo);
    RemoveBlockAtSpec(r, parent[..|parent| - 1], parent[|parent| - 1]);
  }

  lemma RemoveBlockAtSpec(r: Node, grand: Path, k: nat)
    requires ValidPath(r, grand) && At(r, grand).Element? && k < |At(r, grand).children|
    ensures
      var before := At(r, grand).children;
      var r' := RemoveBlockAt(r, grand, k);
      ValidPath(r', grand) &&
      At(r', grand) == At(r, grand).(children :=
        if PartnerLabelBefore(before, k) then before[..k - 1] + before[k + 1..]
        else before[..k] + before[k + 1..]) &&
      SameOutside(r, r', grand)
  {
    if PartnerLabelBefore(At(r, grand).children, k) {
      RemoveLabelAndParent(r, grand, k);
    } else {
      RemoveChildOf(r, grand, k);
    }
  }

  /** Removing the text at `k - 1` and then the node that moved into its
      place takes out children `k - 1` and `k` of the element at `grand`. */
  lemma RemoveLabelAndParent(r: Node, grand: Path, k: nat)
    requires ValidPath(r, grand) && At(r, grand).Element? && 0 < k < |At(r, grand).children|
    ensures ValidPath(r, grand + [k - 1])
    ensures ValidPath(RemoveAt(r, grand + [k - 1]), grand + [k - 1])
    ensures var r2 := RemoveAt(RemoveAt(r, grand + [k - 1]), grand + [k - 1]);
      ValidPath(r2, grand) &&
      At(r2, grand) == At(r, grand).(children := At(r, grand).children[..k - 1] + At(r, grand).children[k + 1..])
    ensures SameOutside(r, RemoveAt(RemoveAt(r, grand + [k - 1]), grand + [k - 1]), grand)
  {
    RemoveTwoChildren(r, grand, k);
    RemoveTwoChildrenFrame(r, grand, k);
  }

  /** The elements the two removals leave at `grand`. */
  lemma RemoveTwoChildren(r: Node, grand: Path, k: nat)
    requires ValidPath(r, grand) && At(r, grand).Element? && 0 < k < |At(r, grand).children|
    ensures ValidPath(r, grand + [k - 1])
    ensures var r1 := RemoveAt(r, grand + [k - 1]);
      ValidPath(r1, grand) && At(r1, grand).Element? && k - 1 < |At(r1, grand).children| &&
      ValidPath(r1, grand + [k - 1])
    ensures var r2 := RemoveAt(RemoveAt(r, grand + [k - 1]), grand + [k - 1]);
      ValidPath(r2, grand) &&
      At(r2, grand) == At(r, grand).(children := At(r, grand).children[..k - 1] + At(r, grand).children[k + 1..])
  {
    var before := At(r, grand).children;
    var mid := before[..k - 1] + before[k..];
    RemoveChildAt(r, grand, k - 1);
    var r1 := RemoveAt(r, grand + [k - 1]);
    RemoveChildAt(r1, grand, k - 1);
    assert mid[..k - 1] + mid[k..] == before[..k - 1] + before[k + 1..];
  }

  /** The two removals change nothing outside `grand`. */
  lemma RemoveTwoChildrenFrame(r: Node, grand: Path, k: nat)
    requires ValidPath(r, grand) && At(r, grand).Element? && 0 < k < |At(r, grand).children|
    ensures ValidPath(r, grand + [k - 1])
    ensures ValidPath(RemoveAt(r, grand + [k - 1]), grand + [k - 1])
    ensures SameOutside(r, RemoveAt(RemoveAt(r, grand + [k - 1]), grand + [k - 1]), grand)
  {
    RemoveTwoChildren(r, grand, k);
    var r1 := RemoveAt(r, grand + [k - 1]);
    RemoveChildOf(r, grand, k - 1);
    RemoveChildOf(r1, grand, k - 1);
    SameOutsideTrans(r, r1, RemoveAt(r1, grand + [k - 1]), grand);
  }

  /** Without a truthy `partnerLogo` the first `Partner logo` image has a
      parent with a parent of its own, and the partner block goes. */
  lemma PartnerBlockRemoved(r: Node, partnerLogo: Option<string>, logo: Path)
    requires HtmlShape(r) && !Truthy(partnerLogo) && FirstMatch(r, PartnerLogo) == Some(logo)
    ensures |logo| >= 2 && PartnerLogoStep(r, partnerLogo) == RemovePartnerBlock(r, logo)
  {
    DeepInHtml(r, logo);
  }

  // ----------------------------------------------------------- start list

  /** The start list goes into the table around the first `th`, in tree
      order, whose trimmed text is "Čas": without such a header there is no
      body to fill. */
  lemma StartListBodyNeedsHeader(r: Node)
    ensures FindByTrimmedText(r, AllMatches(r, Tag("th")), TimeHeading) == FirstMatch(r, TagTrimmedText("th", TimeHeading))
    ensures FirstMatch(r, TagTrimmedText("th", TimeHeading)).None? ==> StartListBody(r).None?
  {
    FindOverAllIsFirstMatch(r, "th", TimeHeading);
  }

  /** The body is found exactly when there is a `th` trimming to "Čas", a
      `table` enclosing the first such header (the nearest one, `closest`)
      and a `tbody` below that table; it is then the first `tbody` below the
      table in tree order. A missing header, table or body means none. */
  lemma StartListBodyIsLookup(r: Node)
    ensures FirstMatch(r, TagTrimmedText("th", TimeHeading)).None? ==> StartListBody(r).None?
    ensures FirstMatch(r, TagTrimmedText("th", TimeHeading)).Some? ==>
      var h := FirstMatch(r, TagTrimmedText("th", TimeHeading)).value;
      Closest(r, h, "table").None? ==> StartListBody(r).None?
    ensures FirstMatch(r, TagTrimmedText("th", TimeHeading)).Some? ==>
      var h := FirstMatch(r, TagTrimmedText("th", TimeHeading)).value;
      Closest(r, h, "table").Some? ==>
      var t := Closest(r, h, "table").value;
      (FirstBelow(At(r, t), Tag("tbody"), 0).None? <==> StartListBody(r).None?) &&
      (FirstBelow(At(r, t), Tag("tbody"), 0).None? ==>
        forall s :: s != [] && ValidPath(At(r, t), s) ==> !HasTag(At(At(r, t), s), "tbody"))
    ensures StartListBody(r).Some? ==>
      var h := FirstMatch(r, TagTrimmedText("th", TimeHeading)).value;
      var t := Closest(r, h, "table").value;
      var s := FirstBelow(At(r, t), Tag("tbody"), 0).value;
      IsPrefix(t, h) && HasTag(At(r, t), "table") && StartListBody(r) == Some(t + s) &&
      forall s' :: s' != [] && ValidPath(At(r, t), s') && HasTag(At(At(r, t), s'), "tbody") ==> PreOrderLe(s, s')
  {
    FindOverAllIsFirstMatch(r, "th", TimeHeading);
    var m := FirstMatch(r, TagTrimmedText("th", TimeHeading));
    if m.Some? && Closest(r, m.value, "table").Some? {
      var t := Closest(r, m.value, "table").value;
      var table := At(r, t);
      forall s' | s' != [] && ValidPath(table, s') && HasTag(At(table, s'), "tbody")
        ensures FirstBelow(table, Tag("tbody"), 0).Some?
        ensures PreOrderLe(FirstBelow(table, Tag("tbody"), 0).value, s')
      {
        FirstBelowIsFirst(table, Tag("tbody"), 0, s');
      }
    }
  }

  /** With `startListData` non-null and the body found, the body's children
      become one row per entry, the body keeps its own data and nothing
      outside it changes. Otherwise nothing changes. */
  lemma StartListFillsBody(r: Node, startListData: Option<seq<seq<string>>>)
    ensures startListData.None? ==> StartListStep(r, startListData) == r
    ensures StartListBody(r).None? ==> StartListStep(r, startListData) == r
    ensures startListData.Some? && StartListBody(r).Some? ==>
      var b := StartListBody(r).value;
      var r' := StartListStep(r, startListData);
      ValidPath(r', b) && HasTag(At(r', b), "tbody") &&
      At(r', b).children == Rows(startListData.value) &&
      LabelOf(At(r', b)) == LabelOf(At(r, b)) &&
      SameOutside(r, r', b)
  {
    if startListData.Some? && StartListBody(r).Some? {
      var b := StartListBody(r).value;
      var e := ReplaceChildren(Rows(startListData.value));
      EditAtTarget(r, b, e);
      EditAtSameOutside(r, b, e);
    }
  }

  /** A cell reads back its text; every cell has the common padding, border
      and alignment; the first two columns are centred, bold and coloured,
      later ones left-aligned with no weight or colour. */
  lemma CellLayout(index: nat, text: string)
    ensures HasTag(Cell(index, text), "td") && Cell(index, text).attrs == map[]
    ensures TextContent(Cell(index, text)) == text
    ensures Cell(index, text).children == TextChildren(text)
    ensures var st := Cell(index, text).style;
      "padding" in st && st["padding"] == "8px 6px" &&
      "border" in st && st["border"] == "1px solid #000000" &&
      "vertical-align" in st && st["vertical-align"] == "top" &&
      "text-align" in st
    ensures var st := Cell(index, text).style;
      index < 2 ==> (st["text-align"] == "center" &&
        "font-weight" in st && st["font-weight"] == "600" &&
        "color" in st && st["color"] == "#268068")
    ensures var st := Cell(index, text).style;
      index >= 2 ==> st["text-align"] == "left" && "font-weight" !in st && "color" !in st
  {
    SetTextContentReadsBack(Element("td", map[], CellStyle(index), []), text);
  }

  /** The rebuilt body has one row per entry of `startListData`, and row
      `i` is a white `tr` with one cell per entry of `startListData[i]`, an
      empty entry included. */
  lemma RowsLayout(data: seq<seq<string>>)
    ensures |Rows(data)| == |data|
    ensures forall i :: 0 <= i < |data| ==>
      HasTag(Rows(data)[i], "tr") && Rows(data)[i].attrs == map[] &&
      Rows(data)[i].style == map["background-color" := "#ffffff"] &&
      |Rows(data)[i].children| == |data[i]|
  {
  }

  /** Cell `j` of row `i` is the styled cell for column `j` and reads back
      `startListData[i][j]`. */
  lemma RowCellLayout(data: seq<seq<string>>, i: nat, j: nat)
    requires i < |data| && j < |data[i]|
    ensures Rows(data)[i].children[j] == Cell(j, data[i][j])
    ensures TextContent(Rows(data)[i].children[j]) == data[i][j]
  {
    CellLayout(j, data[i][j]);
  }
}
