/** The Streamlit page `main.py`: parsing the page selection, cutting a
    page into four bands resized to the requested size, packing every part
    of every page into one ZIP archive, and offering the parts of the
    selected pages one by one. The Streamlit widgets, the PDF reader and
    the rasterizer are replaced by parameters and results. */
module MainApp {
  import opened Builtins
  import opened PageRange
  import opened Imaging
  import opened Packaging

  /** `parse_pages_input`: the selected pages without duplicates, or `[]`
      together with the error message shown. The pages are exactly those
      `PageRange.Parse` selects, and the message is the error it reports. */
  method ParsePagesInput(pagesInput: string, maxPageNum: int)
    returns (pages: seq<int>, shown: Option<ParseError>)
    ensures Distinct(pages)
    ensures Elems(pages) == Selection(Parse(pagesInput, maxPageNum))
    ensures shown == Reported(Parse(pagesInput, maxPageNum))
  {
    var parts := Split(pagesInput, ',');
    var collected: seq<int> := [];
    assert Elems(collected) == {};
    for k := 0 to |parts|
      invariant ParseTokens(parts[..k], maxPageNum) == Ok(Elems(collected))
    {
      var part := parts[k];
      if '-' in part {
        var fields := Split(part, '-');
        if |fields| != 2 {
          ParseTokensFail(parts, k, maxPageNum, InvalidFormat);
          return [], Some(InvalidFormat);
        }
        match (ParseInt(fields[0]), ParseInt(fields[1]))
        case (Some(start), Some(end)) =>
          assert fields == [fields[0], fields[1]];
          HyphenToken(part, fields[0], fields[1], start, end, maxPageNum);
          if start > maxPageNum || end > maxPageNum {
            ParseTokensFail(parts, k, maxPageNum, OutOfRange);
            return [], Some(OutOfRange);
          }
          var range := Range(start, Min(end, maxPageNum) + 1);
          ParseTokensExtend(parts, k, maxPageNum, collected, range);
          collected := collected + range;
        case _ =>
          ParseTokensFail(parts, k, maxPageNum, InvalidFormat);
          return [], Some(InvalidFormat);
      } else {
        var page := ParseInt(part);
        if page.None? {
          ParseTokensFail(parts, k, maxPageNum, InvalidFormat);
          return [], Some(InvalidFormat);
        }
        if page.value > maxPageNum || page.value < 1 {
          ParseTokensFail(parts, k, maxPageNum, OutOfRange);
          return [], Some(OutOfRange);
        }
        assert Elems([page.value]) == {page.value};
        ParseTokensExtend(parts, k, maxPageNum, collected, [page.value]);
        collected := collected + [page.value];
      }
    }
    assert parts[..|parts|] == parts;
    pages, shown := Dedup(collected), None;
  }

  /** `divide_and_resize_image`: the four bands of the page, each resized
      to the requested size. */
  method DivideAndResizeImage(image: Image, desiredWidth: nat, desiredHeight: nat)
    returns (partsResized: seq<Image>)
    ensures partsResized == DividedAndResized(image, desiredWidth, desiredHeight)
    ensures |partsResized| == 4
    ensures forall part <- partsResized :: part.width == desiredWidth && part.height == desiredHeight
  {
    var width, height := image.width, image.height;
    var partHeight := height / 4;
    partsResized := [];
    for i := 0 to 4
      invariant partsResized == DividedAndResized(image, desiredWidth, desiredHeight)[..i]
    {
      var box := Box(0, partHeight * i, width, partHeight * (i + 1));
      assert box == BandBox(width, height, i);
      assert box.lower == box.upper + partHeight;
      var part := Crop(image, box);
      var partResized := Resize(part, desiredWidth, desiredHeight);
      partsResized := partsResized + [partResized];
    }
  }

  /** `create_download_zip`: a new archive holding part `i` under the name
      `page_{prefix}_part_{i}.png`, for `i` from 1, in order. */
  method CreateDownloadZip(parts: seq<Image>, prefix: string) returns (zipFile: ZipArchive)
    ensures fresh(zipFile)
    ensures zipFile.entries == ZipEntries(prefix, parts)
  {
    zipFile := new ZipArchive();
    for i := 0 to |parts|
      invariant zipFile.entries == ZipEntries(prefix, parts[..i])
    {
      assert parts[..i + 1][..i] == parts[..i];
      zipFile.WriteStr(EntryName(prefix, i + 1), parts[i]);
    }
    assert parts[..|parts|] == parts;
  }

  /** The parts of every page, page after page, as the bulk flow collects
      them. */
  function AllPageParts(images: seq<Image>, desiredWidth: nat, desiredHeight: nat): seq<Image> {
    if images == [] then []
    else
      AllPageParts(images[..|images| - 1], desiredWidth, desiredHeight) +
        DividedAndResized(images[|images| - 1], desiredWidth, desiredHeight)
  }

  /** Four parts per page, in page order: part `4*k + j` is band `j` of
      page `k`, resized. */
  lemma {:induction false} AllPagePartsLayout(images: seq<Image>, desiredWidth: nat, desiredHeight: nat)
    ensures |AllPageParts(images, desiredWidth, desiredHeight)| == 4 * |images|
    ensures forall k, j :: 0 <= k < |images| && 0 <= j < 4 ==>
      AllPageParts(images, desiredWidth, desiredHeight)[4 * k + j] ==
        DividedAndResized(images[k], desiredWidth, desiredHeight)[j]
  {
    if images != [] {
      var init := images[..|images| - 1];
      AllPagePartsLayout(init, desiredWidth, desiredHeight);
      var all := AllPageParts(images, desiredWidth, desiredHeight);
      var before := AllPageParts(init, desiredWidth, desiredHeight);
      forall k, j | 0 <= k < |images| && 0 <= j < 4
        ensures all[4 * k + j] == DividedAndResized(images[k], desiredWidth, desiredHeight)[j]
      {
        if k < |init| {
          assert all[4 * k + j] == before[4 * k + j];
          assert images[k] == init[k];
        }
      }
    }
  }

  /** The loop of the "all pages" button: every page divided and resized,
      the parts appended in page order. */
  method CollectAllParts(images: seq<Image>, desiredWidth: nat, desiredHeight: nat)
    returns (allParts: seq<Image>)
    ensures allParts == AllPageParts(images, desiredWidth, desiredHeight)
    ensures |allParts| == 4 * |images|
  {
    allParts := [];
    for pageIndex := 0 to |images|
      invariant allParts == AllPageParts(images[..pageIndex], desiredWidth, desiredHeight)
    {
      var partsResized := DivideAndResizeImage(images[pageIndex], desiredWidth, desiredHeight);
      assert images[..pageIndex + 1][..pageIndex] == images[..pageIndex];
      allParts := allParts + partsResized;
    }
    assert images[..|images|] == images;
    AllPagePartsLayout(images, desiredWidth, desiredHeight);
  }

  /** The "all pages" button: one archive of every part of every page, under
      the prefix "all_pages", offered as "all_pages_parts.zip". */
  method ProcessAllPages(images: seq<Image>, desiredWidth: nat, desiredHeight: nat)
    returns (zipFile: ZipArchive, fileName: string)
    ensures fresh(zipFile)
    ensures zipFile.entries == ZipEntries("all_pages", AllPageParts(images, desiredWidth, desiredHeight))
    ensures fileName == "all_pages_parts.zip"
  {
    var allParts := CollectAllParts(images, desiredWidth, desiredHeight);
    zipFile := CreateDownloadZip(allParts, "all_pages");
    fileName := "all_pages_parts.zip";
  }

  /** The running index is not reset per page: member `4*k + j` of the
      "all pages" archive (counted from 0) is named with index `4*k + j + 1`
      and holds band `j` of page `k`, resized; no two members share a name. */
  lemma AllPagesEntry(images: seq<Image>, desiredWidth: nat, desiredHeight: nat, k: nat, j: nat)
    requires k < |images| && j < 4
    ensures var entries := ZipEntries("all_pages", AllPageParts(images, desiredWidth, desiredHeight));
      |entries| == 4 * |images| &&
      entries[4 * k + j] == Entry(EntryName("all_pages", 4 * k + j + 1),
                                  Resize(Band(images[k], j), desiredWidth, desiredHeight))
    ensures var entries := ZipEntries("all_pages", AllPageParts(images, desiredWidth, desiredHeight));
      forall a, b :: 0 <= a < b < |entries| ==> entries[a].name != entries[b].name
  {
    var all := AllPageParts(images, desiredWidth, desiredHeight);
    AllPagePartsLayout(images, desiredWidth, desiredHeight);
    assert all[4 * k + j] == DividedAndResized(images[k], desiredWidth, desiredHeight)[j];
    assert DividedAndResized(images[k], desiredWidth, desiredHeight)[j] ==
      Resize(Band(images[k], j), desiredWidth, desiredHeight);
    ZipEntryNamesDistinct("all_pages", all);
  }

  /** The "selected pages one by one" button: the selected pages are keyed
      to the images rendered for the window from the smallest to the largest
      selected page; each selected page found there is divided and resized,
      and its four parts are offered as `page_{p}_part_{j}.png`. */
  method ProcessSelectedPages(selectedPages: seq<int>, images: seq<Image>,
                              desiredWidth: nat, desiredHeight: nat)
    returns (links: seq<Download>)
    requires selectedPages != []
    ensures links == SelectedLinks(selectedPages, PageWindow(selectedPages, images),
                                   DivideThenResize, desiredWidth, desiredHeight)
  {
    var processedPages := DictOf(Zip(Range(SeqMin(selectedPages), SeqMax(selectedPages) + 1), images));
    links := [];
    for k := 0 to |selectedPages|
      invariant links == SelectedLinks(selectedPages[..k], processedPages, DivideThenResize,
                                       desiredWidth, desiredHeight)
    {
      var pageNumber := selectedPages[k];
      assert selectedPages[..k + 1][..k] == selectedPages[..k];
      if pageNumber in processedPages {
        var originalImg := processedPages[pageNumber];
        var partsResized := DivideAndResizeImage(originalImg, desiredWidth, desiredHeight);
        var offered := OfferParts(pageNumber, partsResized);
        links := links + offered;
      }
    }
    assert selectedPages[..|selectedPages|] == selectedPages;
  }
}
