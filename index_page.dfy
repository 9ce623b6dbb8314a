/** index.php: the question list's page arithmetic, the pager under the list,
    and the search and tag filters combined into the WHERE clause. */
module IndexPage {
  import opened Common

  // ------------------------------------------------------------ pagination

  const PerPage := 10

  /** The page asked for: the integer value of the page parameter, at least 1;
      1 when the parameter is absent. */
  function PageNumber(param: Option<int>): (page: int)
    ensures page >= 1
    ensures param.Some? && param.value >= 1 ==> page == param.value
    ensures param.None? || param.value < 1 ==> page == 1
  {
    if param.None? then 1
    else if param.value < 1 then 1
    else param.value
  }

  /** The LIMIT/OFFSET window of page `page`. */
  function Offset(page: int): (offset: nat)
    requires page >= 1
    ensures offset % PerPage == 0 && offset / PerPage == page - 1
  {
    (page - 1) * PerPage
  }

  /** ceil(total / 10): the number of pages the questions fill. */
  function TotalPages(total: nat): (pages: nat)
    ensures pages == 0 <==> total == 0
    ensures pages > 0 ==> (pages - 1) * PerPage < total <= pages * PerPage
  {
    (total + PerPage - 1) / PerPage
  }

  /** Every page from 1 to TotalPages starts inside the result list, and the
      last one reaches its end: the pages tile the questions without a gap. */
  lemma PagesTileResults(total: nat, page: int)
    requires 1 <= page <= TotalPages(total)
    ensures Offset(page) < total
    ensures page == TotalPages(total) ==> total <= Offset(page) + PerPage
    ensures Offset(page) + PerPage == Offset(page + 1)
  {
  }

  /** The pager as rendered: Hidden when there is one page or none, otherwise
      the links in left-to-right order. */
  datatype Pager =
    | Hidden
    | Shown(prev: Option<int>, firstLink: bool, leadingGap: bool, start: int, end: int,
            trailingGap: bool, lastLink: bool, next: Option<int>)

  function MakePager(page: int, totalPages: nat): (p: Pager)
    requires page >= 1
    ensures p.Shown? <==> totalPages > 1
    ensures p.Shown? ==> (p.prev.Some? <==> page > 1) && (p.prev.Some? ==> p.prev.value == page - 1)
    ensures p.Shown? ==> (p.next.Some? <==> page < totalPages) && (p.next.Some? ==> p.next.value == page + 1)
  {
    if totalPages <= 1 then Hidden
    else
      var start := if page - 2 > 1 then page - 2 else 1;
      var end := if page + 2 < totalPages then page + 2 else totalPages;
      Shown(if page > 1 then Some(page - 1) else None,
            start > 1, start > 2, start, end,
            end < totalPages - 1, end < totalPages,
            if page < totalPages then Some(page + 1) else None)
  }

  /** The numbered links of the window, from start to end. */
  function Window(start: int, end: int): (w: seq<int>)
    ensures |w| == if end < start then 0 else end - start + 1
    ensures forall i :: 0 <= i < |w| ==> w[i] == start + i
  {
    if end < start then [] else seq(end - start + 1, i requires 0 <= i < end - start + 1 => start + i)
  }

  /** Every numbered link of a shown pager, in order: page 1, the window, the last page. */
  function PageLinks(p: Pager, totalPages: nat): (links: seq<int>)
    requires p.Shown?
  {
    (if p.firstLink then [1] else []) + Window(p.start, p.end) + (if p.lastLink then [totalPages] else [])
  }

  /** The window holds exactly the existing pages at most two away from the
      current one: at most five, and the current page whenever it exists. */
  lemma WindowAroundPage(page: int, totalPages: nat)
    requires page >= 1 && totalPages > 1
    ensures var p := MakePager(page, totalPages);
            && |Window(p.start, p.end)| <= 5
            && (forall x :: x in Window(p.start, p.end) ==> 1 <= x <= totalPages && page - 2 <= x <= page + 2)
            && (forall x :: 1 <= x <= totalPages && page - 2 <= x <= page + 2 ==> x in Window(p.start, p.end))
            && (page <= totalPages ==> page in Window(p.start, p.end))
  {
    var p := MakePager(page, totalPages);
    var w := Window(p.start, p.end);
    forall x | 1 <= x <= totalPages && page - 2 <= x <= page + 2 ensures x in w {
      assert w[x - p.start] == x;
    }
  }

  /** Page 1 is always linked first. The last page is linked last unless the
      requested page lies more than two past it (the page parameter is not
      clamped), where the window is empty and only page 1 is linked. */
  lemma PageLinksReachBothEnds(page: int, totalPages: nat)
    requires page >= 1 && totalPages > 1
    ensures var links := PageLinks(MakePager(page, totalPages), totalPages);
            && |links| > 0 && links[0] == 1
            && (page <= totalPages + 2 <==> links[|links| - 1] == totalPages)
  {
    var p := MakePager(page, totalPages);
    var w := Window(p.start, p.end);
    var links := PageLinks(p, totalPages);
    var first: seq<int> := if p.firstLink then [1] else [];
    var last: seq<int> := if p.lastLink then [totalPages] else [];
    assert links == first + w + last;
    if !p.firstLink {
      assert p.start == 1 && p.start <= p.end;
      assert links[0] == w[0];
    }
    if !p.lastLink {
      if page <= totalPages + 2 {
        assert p.end == totalPages && p.start <= p.end;
        assert links[|links| - 1] == w[|w| - 1];
      } else {
        assert links == [1];
      }
    }
  }

  /** The numbered links never repeat a page: they are strictly increasing
      and all between 1 and the last page. */
  lemma PageLinksIncreasing(page: int, totalPages: nat)
    requires page >= 1 && totalPages > 1
    ensures var p := MakePager(page, totalPages);
            var links := PageLinks(p, totalPages);
            && (forall i, j :: 0 <= i < j < |links| ==> links[i] < links[j])
            && (forall i :: 0 <= i < |links| ==> 1 <= links[i] <= totalPages)
  {
    var p := MakePager(page, totalPages);
    var first: seq<int> := if p.firstLink then [1] else [];
    var w := Window(p.start, p.end);
    var last: seq<int> := if p.lastLink then [totalPages] else [];
    var links := PageLinks(p, totalPages);
    assert links == first + w + last;
    forall i | 0 <= i < |links| ensures 1 <= links[i] <= totalPages
    {
      if i < |first| {
      } else if i < |first| + |w| {
        assert links[i] == w[i - |first|];
      } else {
        assert links[i] == totalPages;
      }
    }
    forall i, j | 0 <= i < j < |links| ensures links[i] < links[j]
    {
      if j < |first| + |w| {
        if i >= |first| {
          assert links[i] == w[i - |first|] && links[j] == w[j - |first|];
        } else {
          assert links[j] == w[j - |first|];
        }
      } else {
        assert links[j] == totalPages;
        if |first| <= i < |first| + |w| {
          assert links[i] == w[i - |first|];
        }
      }
    }
  }

  /** For a page that exists, an ellipsis stands exactly where the links skip
      pages: after the link to page 1 and before the link to the last page. */
  lemma EllipsisMarksSkippedPages(page: int, totalPages: nat)
    requires 1 <= page <= totalPages && totalPages > 1
    ensures var p := MakePager(page, totalPages);
            && (p.leadingGap <==> p.firstLink && p.start - 1 > 1)
            && (p.trailingGap <==> p.lastLink && totalPages - p.end > 1)
            && (!p.firstLink ==> p.start == 1)
            && (!p.lastLink ==> p.end == totalPages)
  {
  }

  // --------------------------------------------------------------- filters

  /** One conjunct of the WHERE clause. */
  datatype Condition =
    | TextMatch(text: Bytes)     // title LIKE %text% OR description LIKE %text%
    | TaggedWith(name: Bytes)    // id IN (questions linked to the tag named name)

  /** The placeholders each conjunct binds. */
  function Placeholders(conds: seq<Condition>): nat {
    if conds == [] then 0
    else (if conds[0].TextMatch? then 2 else 1) + Placeholders(conds[1..])
  }

  /** PHP truthiness of a string: "" and "0" are false. */
  predicate Truthy(s: Bytes) {
    !PhpEmpty(s)
  }

  /** A GET parameter after `trim($_GET[...] ?? '')`. */
  function TrimParam(param: Option<Bytes>): Bytes {
    if param.Some? then PhpTrim(param.value) else []
  }

  /** The conditions and the bound parameters built from the trimmed search
      and tag values. */
  function Where(search: Bytes, tag: Bytes): (r: (seq<Condition>, seq<Bytes>))
    ensures |r.1| == Placeholders(r.0)
  {
    var pattern := Lit("%") + search + Lit("%");
    if Truthy(search) && Truthy(tag) then
      assert [TextMatch(search), TaggedWith(tag)][1..] == [TaggedWith(tag)];
      assert Placeholders([TaggedWith(tag)]) == 1 by {
        assert [TaggedWith(tag)][1..] == [];
      }
      ([TextMatch(search), TaggedWith(tag)], [pattern, pattern, tag])
    else if Truthy(search) then ([TextMatch(search)], [pattern, pattern])
    else if Truthy(tag) then ([TaggedWith(tag)], [tag])
    else ([], [])
  }

  /** The filters of a request: both parameters trimmed, absent meaning "". */
  function Filters(searchParam: Option<Bytes>, tagParam: Option<Bytes>): (r: (seq<Condition>, seq<Bytes>))
    ensures |r.1| == Placeholders(r.0)
  {
    Where(TrimParam(searchParam), TrimParam(tagParam))
  }

  /** The clause is empty exactly when neither filter is given. */
  lemma NoFilterNoWhere(searchParam: Option<Bytes>, tagParam: Option<Bytes>)
    ensures Filters(searchParam, tagParam).0 == [] <==>
              (searchParam.None? || !Truthy(PhpTrim(searchParam.value)))
              && (tagParam.None? || !Truthy(PhpTrim(tagParam.value)))
  {
  }

  /** A question's searchable columns. */
  datatype Listed = Listed(title: Bytes, description: Bytes, tagNames: set<Bytes>)

  predicate Holds(c: Condition, q: Listed) {
    match c
    case TextMatch(text) => Contains(q.title, text) || Contains(q.description, text)
    case TaggedWith(name) => name in q.tagNames
  }

  /** The conjuncts are joined with AND. */
  predicate Selected(conds: seq<Condition>, q: Listed) {
    forall c :: c in conds ==> Holds(c, q)
  }

  /** A question is listed exactly when it matches the search, if one is given,
      and carries the tag, if one is given. */
  lemma FiltersCombineWithAnd(search: Bytes, tag: Bytes, q: Listed)
    ensures Selected(Where(search, tag).0, q) <==>
              && (Truthy(search) ==> Contains(q.title, search) || Contains(q.description, search))
              && (Truthy(tag) ==> tag in q.tagNames)
  {
    var conds := Where(search, tag).0;
    if Truthy(search) {
      assert TextMatch(search) in conds;
    }
    if Truthy(tag) {
      assert TaggedWith(tag) in conds;
    }
  }
}
