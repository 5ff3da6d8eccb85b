/** The Streamlit page `Hello.py`: the same page selection as `main.py`,
    but each selected page is first stretched to the requested size and
    then cut into four bands, which are offered one by one. There is no
    archive on this page. The Streamlit widgets and the rasterizer are
    replaced by parameters and results. */
module HelloApp {
  import opened Builtins
  import opened PageRange
  import opened Imaging
  import opened Packaging

  /** `parse_pages_input` of this page, a copy of the one in `main.py` with
      the same branches: it meets the same specification, so the two copies
      select the same pages and report the same error for every text. */
  method ParsePagesInput(pagesInput: string, maxPageNum: int)
    returns (pages: seq<int>, shown: Option<ParseError>)
    ensures Distinct(pages)
    ensures Elems(pages) == Selection(Parse(pagesInput, maxPageNum))
    ensures shown == Reported(Parse(pagesInput, maxPageNum))
  {
    var parts := Split(pagesInput, ',');
    var collected: seq<int> := [];
    assert Elems(collected) == {};
    for k := 0 to |parts|
      invariant ParseTokens(parts[..k], maxPageNum) == Ok(Elems(collected))
    {
      var part := parts[k];
      if '-' in part {
        var fields := Split(part, '-');
        if |fields| != 2 {
          ParseTokensFail(parts, k, maxPageNum, InvalidFormat);
          return [], Some(InvalidFormat);
        }
        match (ParseInt(fields[0]), ParseInt(fields[1]))
        case (Some(start), Some(end)) =>
          assert fields == [fields[0], fields[1]];
          HyphenToken(part, fields[0], fields[1], start, end, maxPageNum);
          if start > maxPageNum || end > maxPageNum {
            ParseTokensFail(parts, k, maxPageNum, OutOfRange);
            return [], Some(OutOfRange);
          }
          var range := Range(start, Min(end, maxPageNum) + 1);
          ParseTokensExtend(parts, k, maxPageNum, collected, range);
          collected := collected + range;
        case _ =>
          ParseTokensFail(parts, k, maxPageNum, InvalidFormat);
          return [], Some(InvalidFormat);
      } else {
        var page := ParseInt(part);
        if page.None? {
          ParseTokensFail(parts, k, maxPageNum, InvalidFormat);
          return [], Some(InvalidFormat);
        }
        if page.value > maxPageNum || page.value < 1 {
          ParseTokensFail(parts, k, maxPageNum, OutOfRange);
          return [], Some(OutOfRange);
        }
        assert Elems([page.value]) == {page.value};
        ParseTokensExtend(parts, k, maxPageNum, collected, [page.value]);
        collected := collected + [page.value];
      }
    }
    assert parts[..|parts|] == parts;
    pages, shown := Dedup(collected), None;
  }

  /** The "process selected pages" button: the selected pages are keyed to
      the images rendered for the window from the smallest to the largest
      selected page; each selected page found there is resized to the
      requested size, divided into four bands, and the bands are offered as
      `page_{p}_part_{j}.png`. */
  method ProcessSelectedPages(selectedPages: seq<int>, images: seq<Image>,
                              desiredWidth: nat, desiredHeight: nat)
    returns (links: seq<Download>)
    requires selectedPages != []
    ensures links == SelectedLinks(selectedPages, PageWindow(selectedPages, images),
                                   ResizeThenDivide, desiredWidth, desiredHeight)
  {
    var processedPages := DictOf(Zip(Range(SeqMin(selectedPages), SeqMax(selectedPages) + 1), images));
    links := [];
    for k := 0 to |selectedPages|
      invariant links == SelectedLinks(selectedPages[..k], processedPages, ResizeThenDivide,
                                       desiredWidth, desiredHeight)
    {
      var pageNumber := selectedPages[k];
      assert selectedPages[..k + 1][..k] == selectedPages[..k];
      if pageNumber in processedPages {
        var originalImg := processedPages[pageNumber];
        var resizedImg := Resize(originalImg, desiredWidth, desiredHeight);
        var parts := DivideImage(resizedImg);
        var offered := OfferParts(pageNumber, parts);
        links := links + offered;
      }
    }
    assert selectedPages[..|selectedPages|] == selectedPages;
  }

  /** For the same selection and images, this page and `main.py` offer the
      same buttons under the same file names, in the same order; the parts
      have the requested width on both pages, but here a quarter of the
      requested height (rounded down) instead of the full height. */
  lemma {:induction false} SameButtonsOtherHeight(selected: seq<int>, images: seq<Image>, width: nat, height: nat)
    requires selected != []
    ensures var window := PageWindow(selected, images);
      var hello := SelectedLinks(selected, window, ResizeThenDivide, width, height);
      var main := SelectedLinks(selected, window, DivideThenResize, width, height);
      |hello| == |main| &&
      forall i :: 0 <= i < |hello| ==>
        hello[i].fileName == main[i].fileName &&
        hello[i].image.width == main[i].image.width == width &&
        hello[i].image.height == height / 4 && main[i].image.height == height
  {
    var window := PageWindow(selected, images);
    SelectedLinksLength(selected, window, ResizeThenDivide, width, height);
    SelectedLinksLength(selected, window, DivideThenResize, width, height);
    var hello := SelectedLinks(selected, window, ResizeThenDivide, width, height);
    var main := SelectedLinks(selected, window, DivideThenResize, width, height);
    forall i | 0 <= i < |hello|
      ensures hello[i].fileName == main[i].fileName &&
        hello[i].image.width == main[i].image.width == width &&
        hello[i].image.height == height / 4 && main[i].image.height == height
    {
      var k, j := i / 4, i % 4;
      QuarterIndex(i, |Found(selected, window)|);
      ButtonAt(selected, window, ResizeThenDivide, width, height, k, j);
      ButtonAt(selected, window, DivideThenResize, width, height, k, j);
    }
  }

  /** Button `4*k + j` of either page is named after part `j + 1` of the
      `k`-th page found, and its part has the requested width and, by the
      slicing order, the full or a quarter of the requested height. */
  lemma ButtonAt(selected: seq<int>, window: map<int, Image>, slicing: Slicing,
                 width: nat, height: nat, k: nat, j: nat)
    requires k < |Found(selected, window)| && j < 4
    ensures var links := SelectedLinks(selected, window, slicing, width, height);
      |links| == 4 * |Found(selected, window)| &&
      links[4 * k + j].fileName == PartFileName(Found(selected, window)[k], j + 1) &&
      links[4 * k + j].image.width == width &&
      links[4 * k + j].image.height == if slicing == DivideThenResize then height else height / 4
  {
    SelectedLinksEntry(selected, window, slicing, width, height, k, j);
    var p := Found(selected, window)[k];
    var parts := PartsOf(slicing, window[p], width, height);
    assert parts[j] in parts;
  }

  /** Index `i` of a list of four buttons per page is button `i % 4` of page
      `i / 4`. */
  lemma QuarterIndex(i: int, n: int)
    requires 0 <= i < 4 * n
    ensures 0 <= i / 4 < n && 0 <= i % 4 < 4 && i == 4 * (i / 4) + i % 4
  {
  }
}
