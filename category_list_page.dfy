/** The pagination logic of the category list page
    (src/components/CategoryListPage.tsx): the slice of categories shown on the
    current page, the message shown when that slice is empty, and the row of
    page buttons with the current one marked. */
module CategoryListPage {
  import opened Wrappers
  import opened Seqs

  /** A phrase as this page's `Phrase` interface describes it. */
  datatype Phrase = Phrase(id: string, amharic: string, english: string, pronunciation: string,
                           notes: Option<string>)

  /** A category as this page's `Category` interface describes it. */
  datatype Category = Category(id: string, name: string, phrases: seq<Phrase>)

  /** `itemsPerPage`. */
  const ItemsPerPage: nat := 9

  function Min(a: int, b: int): int { if a <= b then a else b }
  function Max(a: int, b: int): int { if a <= b then b else a }

  /** `startIndex`: the offset of the first item of page `currentPage` (pages count from 1). */
  function StartIndex(currentPage: int): (start: nat)
    requires currentPage >= 1
    ensures start % ItemsPerPage == 0 && start / ItemsPerPage == currentPage - 1
  {
    (currentPage - 1) * ItemsPerPage
  }

  /** `Array.prototype.slice(start, end)` for non-negative arguments: both bounds are
      clamped to the length, and an end at or before the start gives nothing. */
  function Slice<T>(s: seq<T>, start: nat, end: nat): (r: seq<T>)
    ensures |r| == Max(0, Min(end, |s|) - Min(start, |s|))
    ensures forall i :: 0 <= i < |r| ==> start + i < |s| && r[i] == s[start + i]
  {
    var b := Min(start, |s|);
    var e := Min(end, |s|);
    if b < e then s[b..e] else []
  }

  /** `currentItems`: the categories shown on page `currentPage`. */
  function CurrentItems<T>(categories: seq<T>, currentPage: int): (r: seq<T>)
    requires currentPage >= 1
    ensures |r| == Min(ItemsPerPage, Max(0, |categories| - StartIndex(currentPage)))
    ensures forall i :: 0 <= i < |r| ==>
      StartIndex(currentPage) + i < |categories| && r[i] == categories[StartIndex(currentPage) + i]
    ensures r == [] <==> StartIndex(currentPage) >= |categories|
  {
    var start := StartIndex(currentPage);
    Slice(categories, start, start + ItemsPerPage)
  }

  /** The page's items are the contiguous run of `categories` starting at the page's offset. */
  lemma CurrentItemsIsContiguousRun<T>(categories: seq<T>, currentPage: int)
    requires currentPage >= 1
    ensures var start, r := StartIndex(currentPage), CurrentItems(categories, currentPage);
      start + |r| <= |categories| || r == []
    ensures var start, r := StartIndex(currentPage), CurrentItems(categories, currentPage);
      r != [] ==> r == categories[start..start + |r|]
  {
    var start, r := StartIndex(currentPage), CurrentItems(categories, currentPage);
    if r != [] {
      assert r == categories[start..start + |r|];
    }
  }

  /** The number of pages needed for `n` items: the ceiling of `n / ItemsPerPage`. */
  function PageCount(n: nat): (pages: nat)
    ensures pages * ItemsPerPage >= n
    ensures pages == 0 || (pages - 1) * ItemsPerPage < n
  {
    (n + ItemsPerPage - 1) / ItemsPerPage
  }

  /** The items of pages `1..pages`, one page after another. */
  function PagesUpTo<T>(categories: seq<T>, pages: nat): seq<T>
  {
    if pages == 0 then [] else PagesUpTo(categories, pages - 1) + CurrentItems(categories, pages)
  }

  /** The first `pages` pages together are the first `pages * ItemsPerPage` items. */
  lemma {:induction false} PagesUpToIsPrefix<T>(categories: seq<T>, pages: nat)
    ensures PagesUpTo(categories, pages) == categories[..Min(pages * ItemsPerPage, |categories|)]
  {
    if pages > 0 {
      PagesUpToIsPrefix(categories, pages - 1);
      var before := Min((pages - 1) * ItemsPerPage, |categories|);
      var after := Min(pages * ItemsPerPage, |categories|);
      var page := CurrentItems(categories, pages);
      assert |page| == after - before;
      assert page == categories[before..after];
      assert categories[..before] + categories[before..after] == categories[..after];
    }
  }

  /** Pages `1..PageCount(|categories|)` together reproduce `categories` exactly:
      nothing is skipped, repeated or reordered. */
  lemma PagesPartitionCategories<T>(categories: seq<T>)
    ensures PagesUpTo(categories, PageCount(|categories|)) == categories
  {
    PagesUpToIsPrefix(categories, PageCount(|categories|));
  }

  /** A page after the last one is empty. */
  lemma PagesAfterLastAreEmpty<T>(categories: seq<T>, currentPage: int)
    requires currentPage > PageCount(|categories|)
    ensures CurrentItems(categories, currentPage) == []
  {
    var pages := PageCount(|categories|);
    assert (currentPage - 1) * ItemsPerPage >= pages * ItemsPerPage;
  }

  // ---------------------------------------------------------------------------
  // Category grid

  /** What a category card shows: its name and its number of phrases, keyed by id. */
  datatype CategoryCard = CategoryCard(key: string, name: string, phraseCount: nat)

  /** The category grid: the cards of the page, or the "no categories" message. */
  datatype CategoryGrid = Cards(cards: seq<CategoryCard>) | NoMatches(message: string)

  /** The card of a category: keyed by its id, titled with its name, counting its phrases. */
  function Card(category: Category): (card: CategoryCard)
    ensures card.key == category.id && card.name == category.name
    ensures card.phraseCount == |category.phrases|
  {
    CategoryCard(category.id, category.name, |category.phrases|)
  }

  /** The fallback message, which quotes the search term verbatim. */
  function NoMatchesMessage(searchTerm: string): (m: string)
    ensures |m| == |searchTerm| + 32
    ensures m[..30] == "No categories found matching \""
    ensures m[30..30 + |searchTerm|] == searchTerm
    ensures m[30 + |searchTerm|..] == "\"."
  {
    "No categories found matching \"" + searchTerm + "\"."
  }

  /** The grid for page `currentPage`: one card per item of the page in order, or
      the fallback message exactly when the page's offset is past the last category. */
  function Grid(categories: seq<Category>, searchTerm: string, currentPage: int): (g: CategoryGrid)
    requires currentPage >= 1
    ensures g.NoMatches? <==> StartIndex(currentPage) >= |categories|
    ensures g.NoMatches? ==> g.message == NoMatchesMessage(searchTerm)
    ensures g.Cards? ==> 0 < |g.cards| <= ItemsPerPage
    ensures g.Cards? ==> |g.cards| == |CurrentItems(categories, currentPage)|
    ensures g.Cards? ==> forall i :: 0 <= i < |g.cards| ==>
      StartIndex(currentPage) + i < |categories| &&
      g.cards[i] == Card(categories[StartIndex(currentPage) + i])
  {
    var items := CurrentItems(categories, currentPage);
    if |items| > 0 then Cards(seq(|items|, i requires 0 <= i < |items| => Card(items[i])))
    else NoMatches(NoMatchesMessage(searchTerm))
  }

  // ---------------------------------------------------------------------------
  // Page buttons

  /** `Array.from({ length: totalPages }, (_, i) => i + 1)`. */
  function PageNumbers(totalPages: nat): (r: seq<int>)
    ensures |r| == totalPages
    ensures forall k :: k in r <==> 1 <= k <= totalPages
    ensures forall i, j :: 0 <= i < j < |r| ==> r[i] < r[j]
  {
    var r := seq(totalPages, i requires 0 <= i < totalPages => i + 1);
    assert forall k :: 1 <= k <= totalPages ==> k in r by {
      forall k | 1 <= k <= totalPages ensures k in r {
        assert r[k - 1] == k;
      }
    }
    r
  }

  /** A page button: the page it selects, and whether it is marked as the current page. */
  datatype PageButton = PageButton(page: int, isCurrent: bool)

  function IsCurrent(b: PageButton): bool { b.isCurrent }

  /** The pagination bar: absent unless there is more than one page; otherwise one
      button per page number, in order, marked exactly when it is `currentPage`. */
  function Pagination(currentPage: int, totalPages: int): (bar: Option<seq<PageButton>>)
    ensures bar.Some? <==> totalPages > 1
    ensures bar.Some? ==> |bar.value| == totalPages
    ensures bar.Some? ==> forall i :: 0 <= i < |bar.value| ==>
        bar.value[i].page == i + 1 && (bar.value[i].isCurrent <==> currentPage == i + 1)
  {
    if totalPages > 1 then
      var pages := PageNumbers(totalPages);
      Some(seq(|pages|, i requires 0 <= i < |pages| => PageButton(pages[i], currentPage == pages[i])))
    else None
  }

  /** When `currentPage` is a valid page, exactly one button is marked current, and it
      is the button of `currentPage`; when it is not, no button is marked. */
  lemma ExactlyOneCurrentButton(currentPage: int, totalPages: int)
    requires totalPages > 1
    ensures 1 <= currentPage <= totalPages ==>
      Filter(IsCurrent, Pagination(currentPage, totalPages).value) == [PageButton(currentPage, true)]
    ensures !(1 <= currentPage <= totalPages) ==>
      Filter(IsCurrent, Pagination(currentPage, totalPages).value) == []
  {
    var buttons := Pagination(currentPage, totalPages).value;
    if 1 <= currentPage <= totalPages {
      FilterSingle(IsCurrent, buttons, currentPage - 1);
    } else {
      FilterNonePass(IsCurrent, buttons);
    }
  }
}
