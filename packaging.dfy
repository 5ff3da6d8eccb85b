/** What the two Streamlit pages hand back to the user: ZIP archive members
    named by a running index, download buttons named by page and part, and
    the map from page numbers to the rendered pages of the selected window. */
module Packaging {
  import opened Builtins
  import opened Imaging

  // ---------------------------------------------------------------------------
  // The ZIP archive of `create_download_zip`

  /** An archive member: its name and the part stored in it (the PNG bytes
      are abstracted to the image they encode). */
  datatype Entry = Entry(name: string, image: Image)

  /** The in-memory archive `create_download_zip` writes into: the members
      written so far, in order. */
  class ZipArchive {
    var entries: seq<Entry>

    constructor ()
      ensures entries == []
    {
      entries := [];
    }

    /** `zip_file.writestr(name, data)`: one more member at the end. */
    method WriteStr(name: string, image: Image)
      modifies this
      ensures entries == old(entries) + [Entry(name, image)]
    {
      entries := entries + [Entry(name, image)];
    }
  }

  /** The member name of part `i` (counted from 1) under `prefix`. */
  function EntryName(prefix: string, i: nat): string {
    "page_" + prefix + "_part_" + NatToString(i) + ".png"
  }

  /** The members `create_download_zip` writes for `parts`, one per part,
      in order. */
  function ZipEntries(prefix: string, parts: seq<Image>): (entries: seq<Entry>)
    ensures |entries| == |parts|
    ensures forall i :: 0 <= i < |parts| ==> entries[i] == Entry(EntryName(prefix, i + 1), parts[i])
  {
    if parts == [] then []
    else ZipEntries(prefix, parts[..|parts| - 1]) + [Entry(EntryName(prefix, |parts|), parts[|parts| - 1])]
  }

  /** The string between a fixed prefix and a fixed suffix is determined by
      the whole string. */
  lemma InfixDetermined(pre: string, x: string, y: string, post: string)
    requires pre + x + post == pre + y + post
    ensures x == y
  {
    var s := pre + x + post;
    assert |x| == |y|;
    assert s[|pre|..|pre| + |x|] == x;
    assert (pre + y + post)[|pre|..|pre| + |y|] == y;
  }

  /** Different indices give different member names. */
  lemma EntryNameInjective(prefix: string, i: nat, j: nat)
    requires EntryName(prefix, i) == EntryName(prefix, j)
    ensures i == j
  {
    var pre := "page_" + prefix + "_part_";
    assert EntryName(prefix, i) == pre + NatToString(i) + ".png";
    assert EntryName(prefix, j) == pre + NatToString(j) + ".png";
    InfixDetermined(pre, NatToString(i), NatToString(j), ".png");
    NatToStringInjective(i, j);
  }

  /** No two members of the archive share a name. */
  lemma ZipEntryNamesDistinct(prefix: string, parts: seq<Image>)
    ensures forall i, j :: 0 <= i < j < |parts| ==>
      ZipEntries(prefix, parts)[i].name != ZipEntries(prefix, parts)[j].name
  {
    forall i, j | 0 <= i < j < |parts|
      ensures ZipEntries(prefix, parts)[i].name != ZipEntries(prefix, parts)[j].name
    {
      if EntryName(prefix, i + 1) == EntryName(prefix, j + 1) {
        EntryNameInjective(prefix, i + 1, j + 1);
      }
    }
  }

  // ---------------------------------------------------------------------------
  // Download buttons of the selected-pages flows

  /** A download button: the file name it offers and the part it serves. */
  datatype Download = Download(fileName: string, image: Image)

  /** The file name of part `part` of page `page`. */
  function PartFileName(page: int, part: nat): string {
    "page_" + IntToString(page) + "_part_" + NatToString(part) + ".png"
  }

  /** The buttons of one page: part `j` is offered as part number `j + 1`. */
  function PageLinks(page: int, parts: seq<Image>): (links: seq<Download>)
    ensures |links| == |parts|
    ensures forall j :: 0 <= j < |parts| ==> links[j] == Download(PartFileName(page, j + 1), parts[j])
  {
    seq(|parts|, j requires 0 <= j < |parts| => Download(PartFileName(page, j + 1), parts[j]))
  }

  /** The inner loop of both selected-pages flows: part `j` (counted from 1)
      of `page` is shown and offered as `page_{page}_part_{j}.png`, in
      order. */
  method OfferParts(page: int, parts: seq<Image>) returns (links: seq<Download>)
    ensures links == PageLinks(page, parts)
  {
    links := [];
    for j := 0 to |parts|
      invariant links == PageLinks(page, parts[..j])
    {
      assert parts[..j + 1][..j] == parts[..j];
      links := links + [Download(PartFileName(page, j + 1), parts[j])];
    }
    assert parts[..|parts|] == parts;
  }

  /** How a page becomes its four parts: cut into bands and stretch each one
      (`divide_and_resize_image`), or stretch the page and cut it
      (`resize` followed by `divide_image`). */
  datatype Slicing = DivideThenResize | ResizeThenDivide

  function PartsOf(slicing: Slicing, img: Image, width: nat, height: nat): (parts: seq<Image>)
    ensures |parts| == 4
    ensures forall part <- parts ::
      part.width == width && part.height == (if slicing == DivideThenResize then height else height / 4)
  {
    match slicing
    case DivideThenResize =>
      DividedAndResizedParts(img, width, height);
      DividedAndResized(img, width, height)
    case ResizeThenDivide =>
      ResizeThenDivideParts(img, width, height);
      DivideImage(Resize(img, width, height))
  }

  /** The map from page numbers to rendered pages: the numbers from the
      smallest to the largest selected page, paired with the images in
      order and cut off at the shorter of the two. */
  function PageWindow(selected: seq<int>, images: seq<Image>): map<int, Image>
    requires selected != []
  {
    DictOf(Zip(Range(SeqMin(selected), SeqMax(selected) + 1), images))
  }

  /** Page `p` is in the window exactly when it lies between the smallest
      and the largest selected page and there is an image for it, and then
      it maps to image number `p - min`. */
  lemma PageWindowContents(selected: seq<int>, images: seq<Image>)
    requires selected != []
    ensures forall p :: p in PageWindow(selected, images) <==>
      SeqMin(selected) <= p <= SeqMax(selected) && p - SeqMin(selected) < |images|
    ensures forall p :: p in PageWindow(selected, images) ==>
      0 <= p - SeqMin(selected) < |images| &&
      PageWindow(selected, images)[p] == images[p - SeqMin(selected)]
  {
    NumberedImages(SeqMin(selected), SeqMax(selected) + 1, images);
  }

  /** The dictionary built from the numbers `first`, `first + 1`, ... below
      `stop`, zipped with `images`. */
  lemma NumberedImages(first: int, stop: int, images: seq<Image>)
    ensures forall p :: p in DictOf(Zip(Range(first, stop), images)) <==>
      first <= p < stop && p - first < |images|
    ensures forall p :: p in DictOf(Zip(Range(first, stop), images)) ==>
      0 <= p - first < |images| &&
      DictOf(Zip(Range(first, stop), images))[p] == images[p - first]
  {
    var pairs := Zip(Range(first, stop), images);
    NumberedPairs(first, stop, images);
    assert forall i, j :: 0 <= i < j < |pairs| ==> pairs[i].0 != pairs[j].0;
    DictOfDistinctKeys(pairs);
    forall p | p in DictOf(pairs)
      ensures 0 <= p - first < |images| && DictOf(pairs)[p] == images[p - first]
    {
      assert pairs[p - first].0 == p;
    }
  }

  /** Pair `i` of the numbers from `first` zipped with `images` is
      `(first + i, images[i])`, and a number is a key of some pair exactly
      when it is below `stop` and has an image. */
  lemma NumberedPairs(first: int, stop: int, images: seq<Image>)
    ensures forall i :: 0 <= i < |Zip(Range(first, stop), images)| ==>
      Zip(Range(first, stop), images)[i] == (first + i, images[i])
    ensures forall p :: HasKey(Zip(Range(first, stop), images), p) <==>
      first <= p < stop && p - first < |images|
  {
    var pairs := Zip(Range(first, stop), images);
    forall p ensures HasKey(pairs, p) <==> first <= p < stop && p - first < |images| {
      if first <= p < stop && p - first < |images| {
        assert pairs[p - first].0 == p;
      }
    }
  }

  /** The pages of `pages` that the window holds, in order. */
  function Found(pages: seq<int>, window: map<int, Image>): (found: seq<int>)
    ensures forall p <- found :: p in pages && p in window
  {
    if pages == [] then []
    else
      var p := pages[|pages| - 1];
      Found(pages[..|pages| - 1], window) + if p in window then [p] else []
  }

  /** Every selected page the window holds is found, so a page is handled
      exactly when it is selected and has an image. */
  lemma {:induction false} FoundComplete(pages: seq<int>, window: map<int, Image>)
    ensures forall p <- pages :: p in window ==> p in Found(pages, window)
  {
    if pages != [] {
      var init, last := pages[..|pages| - 1], pages[|pages| - 1];
      FoundComplete(init, window);
      assert pages == init + [last];
    }
  }

  /** `Found` keeps the selection's order: the pages found in a selection
      made of two parts are those found in the first part followed by those
      found in the second. */
  lemma {:induction false} FoundAppend(a: seq<int>, b: seq<int>, window: map<int, Image>)
    ensures Found(a + b, window) == Found(a, window) + Found(b, window)
    decreases |b|
  {
    if b == [] {
      assert a + b == a;
    } else {
      var init, p := b[..|b| - 1], b[|b| - 1];
      var last := if p in window then [p] else [];
      assert Found(a + b, window) == Found(a + init, window) + last by {
        assert a + b == (a + init) + [p];
        FoundSnoc(a + init, p, window);
      }
      assert Found(b, window) == Found(init, window) + last by {
        assert b == init + [p];
        FoundSnoc(init, p, window);
      }
      FoundAppend(a, init, window);
      ConcatAssoc(Found(a, window), Found(init, window), last);
    }
  }

  /** Concatenation of page lists is associative. */
  lemma ConcatAssoc(x: seq<int>, y: seq<int>, z: seq<int>)
    ensures (x + y) + z == x + (y + z)
  {
  }

  /** One more page is found after the others exactly when the window
      holds it. */
  lemma FoundSnoc(pages: seq<int>, p: int, window: map<int, Image>)
    ensures Found(pages + [p], window) == Found(pages, window) + if p in window then [p] else []
  {
    assert (pages + [p])[..|pages|] == pages;
  }

  /** A single page is found exactly when the window holds it. */
  lemma FoundSingle(p: int, window: map<int, Image>)
    ensures Found([p], window) == if p in window then [p] else []
  {
    assert [p][..0] == [];
  }

  /** The buttons the selected-pages loop offers: for each selected page in
      the window, in order, the buttons of its four parts. */
  function SelectedLinks(pages: seq<int>, window: map<int, Image>, slicing: Slicing,
                         width: nat, height: nat): seq<Download>
  {
    if pages == [] then []
    else
      var p := pages[|pages| - 1];
      SelectedLinks(pages[..|pages| - 1], window, slicing, width, height) +
        if p in window then PageLinks(p, PartsOf(slicing, window[p], width, height)) else []
  }

  /** Each page the window holds yields four buttons, parts 1 to 4 of that
      page: button `4*k + j` offers part `j + 1` of the `k`-th page found. */
  lemma SelectedLinksLayout(pages: seq<int>, window: map<int, Image>, slicing: Slicing,
                            width: nat, height: nat)
    ensures |SelectedLinks(pages, window, slicing, width, height)| == 4 * |Found(pages, window)|
    ensures forall k, j :: 0 <= k < |Found(pages, window)| && 0 <= j < 4 ==>
      var p := Found(pages, window)[k];
      SelectedLinks(pages, window, slicing, width, height)[4 * k + j] ==
        Download(PartFileName(p, j + 1), PartsOf(slicing, window[p], width, height)[j])
  {
    SelectedLinksLength(pages, window, slicing, width, height);
    forall k, j | 0 <= k < |Found(pages, window)| && 0 <= j < 4 {
      SelectedLinksEntry(pages, window, slicing, width, height, k, j);
    }
  }

  /** Four buttons per page found. */
  lemma {:induction false} SelectedLinksLength(pages: seq<int>, window: map<int, Image>, slicing: Slicing,
                                               width: nat, height: nat)
    ensures |SelectedLinks(pages, window, slicing, width, height)| == 4 * |Found(pages, window)|
  {
    if pages != [] {
      SelectedLinksLength(pages[..|pages| - 1], window, slicing, width, height);
    }
  }

  /** Button `4*k + j` offers part `j + 1` of the `k`-th page found. */
  lemma {:induction false} SelectedLinksEntry(pages: seq<int>, window: map<int, Image>, slicing: Slicing,
                                              width: nat, height: nat, k: nat, j: nat)
    requires k < |Found(pages, window)| && j < 4
    ensures |SelectedLinks(pages, window, slicing, width, height)| == 4 * |Found(pages, window)|
    ensures var p := Found(pages, window)[k];
      SelectedLinks(pages, window, slicing, width, height)[4 * k + j] ==
        Download(PartFileName(p, j + 1), PartsOf(slicing, window[p], width, height)[j])
  {
    var links, found := SelectedLinks(pages, window, slicing, width, height), Found(pages, window);
    var init, p := pages[..|pages| - 1], pages[|pages| - 1];
    var before := SelectedLinks(init, window, slicing, width, height);
    var last := if p in window then [p] else [];
    var mine := if p in window then PageLinks(p, PartsOf(slicing, window[p], width, height)) else [];
    assert links == before + mine && found == Found(init, window) + last;
    SelectedLinksLength(pages, window, slicing, width, height);
    SelectedLinksLength(init, window, slicing, width, height);
    if k < |Found(init, window)| {
      SelectedLinksEntry(init, window, slicing, width, height, k, j);
      assert found[k] == Found(init, window)[k];
      assert links[4 * k + j] == before[4 * k + j];
    } else {
      assert p in window && k == |Found(init, window)| && found[k] == p;
      assert 4 * k == |before| && |mine| == 4;
      assert links[4 * k + j] == mine[j];
    }
  }

  /** When every selected page lies in the window, every selected page is
      found, so the loop offers exactly four buttons per selected page. */
  lemma {:induction false} FoundAll(pages: seq<int>, window: map<int, Image>)
    requires forall p <- pages :: p in window
    ensures Found(pages, window) == pages
  {
    if pages != [] {
      FoundAll(pages[..|pages| - 1], window);
      assert pages[..|pages| - 1] + [pages[|pages| - 1]] == pages;
    }
  }

  /** The window holds every selected page exactly when there are images
      for all pages from the smallest to the largest selected one. */
  lemma WindowCoversSelection(selected: seq<int>, images: seq<Image>)
    requires selected != []
    ensures (forall p <- selected :: p in PageWindow(selected, images)) <==>
      SeqMax(selected) - SeqMin(selected) < |images|
  {
    PageWindowContents(selected, images);
    if forall p <- selected :: p in PageWindow(selected, images) {
      assert SeqMax(selected) in PageWindow(selected, images);
    }
  }
}
