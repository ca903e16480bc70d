/** The page and page size of an API request, clamped to what the store keeps. */
module Paging {
  import opened Prelude
  import opened Numerals
  import opened Window

  const DEFAULT_PAGE := 1
  const DEFAULT_PAGE_SIZE := 50

  /** What a request means before clamping: a readable positive number itself, anything else the default. */
  function Meant(parameter: string, default: int): (n: int)
    ensures Atoi(parameter).Some? && Atoi(parameter).value >= 1 ==> n == Atoi(parameter).value
    ensures Atoi(parameter).None? || Atoi(parameter).value < 1 ==> n == default
  {
    match Atoi(parameter)
    case Some(n) => if n < 1 then default else n
    case None => default
  }

  /** Page and page size of a request; the size is clamped to what the store keeps, on the first page only. */
  method ExtractPageAndPageSizeFromRequest(
      pageParameter: string, pageSizeParameter: string, maximumNumberOfResults: int)
    returns (page: int, pageSize: int)
    ensures page == Meant(pageParameter, 1) && page >= 1
    ensures page > 1 ==> pageSize == Meant(pageSizeParameter, 50)
    ensures page == 1 ==>
              var asked := if Atoi(pageSizeParameter).Some? then Atoi(pageSizeParameter).value else 50;
              pageSize == if asked > maximumNumberOfResults then maximumNumberOfResults
                          else if asked >= 1 then asked else 50
    ensures maximumNumberOfResults >= 1 ==> pageSize >= 1
  {
    if pageParameter == "" {
      page := DEFAULT_PAGE;
    } else {
      var n := Atoi(pageParameter);
      page := if n.None? then DEFAULT_PAGE else n.value;
      if page < 1 {
        page := DEFAULT_PAGE;
      }
    }
    if pageSizeParameter == "" {
      pageSize := DEFAULT_PAGE_SIZE;
    } else {
      var n := Atoi(pageSizeParameter);
      pageSize := if n.None? then DEFAULT_PAGE_SIZE else n.value;
    }
    if page == 1 && pageSize > maximumNumberOfResults {
      pageSize := maximumNumberOfResults;
    } else if pageSize < 1 {
      pageSize := DEFAULT_PAGE_SIZE;
    }
  }

  /** Clamping page 1 to the maximum shows the same elements of any list that respects the maximum. */
  lemma ClampingKeepsThePage<X>(s: seq<X>, page: int, asked: int, clamped: int, maximum: int)
    requires |s| <= maximum
    requires clamped == asked || (page == 1 && clamped == maximum < asked)
    ensures Page(s, page, clamped) == Page(s, page, asked)
  {
  }

  /** So a request shows exactly the page it means. */
  method RequestedPage<X>(s: seq<X>, pageParameter: string, pageSizeParameter: string, maximumNumberOfResults: int)
    returns (shown: seq<X>)
    requires |s| <= maximumNumberOfResults
    ensures shown == Page(s, Meant(pageParameter, 1), Meant(pageSizeParameter, 50))
  {
    var page, pageSize := ExtractPageAndPageSizeFromRequest(pageParameter, pageSizeParameter, maximumNumberOfResults);
    ClampingKeepsThePage(s, page, Meant(pageSizeParameter, 50), pageSize, maximumNumberOfResults);
    shown := Page(s, page, pageSize);
  }
}
