/** Hotel search and paging (`HotelRepository.GetPagedAsync`,
    `GetActiveHotelsAsync`) and the page arithmetic of `PagedResultDto`. */
module HotelSearch {
  import opened Common
  import opened Entities
  import opened Text

  // ---------------------------------------------------------------------
  // Text
  // ---------------------------------------------------------------------

  /** `char.IsWhiteSpace`: the separator categories plus the control
      characters U+0009 to U+000D, U+0085 and U+00A0. */
  predicate IsWhiteSpace(c: char) {
    var u := c as int;
    || (0x09 <= u <= 0x0D) || u == 0x20 || u == 0x85 || u == 0xA0 || u == 0x1680
    || (0x2000 <= u <= 0x200A) || u == 0x2028 || u == 0x2029 || u == 0x202F
    || u == 0x205F || u == 0x3000
  }

  /** `string.IsNullOrWhiteSpace`. */
  predicate IsNullOrWhiteSpace(term: Option<string>) {
    term.None? || forall i :: 0 <= i < |term.value| ==> IsWhiteSpace(term.value[i])
  }

  /** Lower-casing neither creates nor removes white space. */
  lemma LowerKeepsWhiteSpace(s: string)
    ensures forall i :: 0 <= i < |s| ==> (IsWhiteSpace(Lower(s)[i]) <==> IsWhiteSpace(s[i]))
  {
  }

  // ---------------------------------------------------------------------
  // Filter
  // ---------------------------------------------------------------------

  /** The search predicate: the lower-cased term in the lower-cased name or
      address. */
  predicate Matches(h: Hotel, term: string) {
    Contains(Lower(h.name), Lower(term)) || Contains(Lower(h.address), Lower(term))
  }

  /** The hotels satisfying `Matches`, in store order. */
  function Search(hotels: seq<Hotel>, term: string): (r: seq<Hotel>)
    ensures forall h :: h in r <==> h in hotels && Matches(h, term)
    ensures |r| <= |hotels|
  {
    if |hotels| == 0 then []
    else (if Matches(hotels[0], term) then [hotels[0]] else []) + Search(hotels[1..], term)
  }

  /** The query of `GetPagedAsync` before ordering: no filter for a null,
      empty or blank term. */
  function Filter(hotels: seq<Hotel>, term: Option<string>): (r: seq<Hotel>)
    ensures IsNullOrWhiteSpace(term) ==> r == hotels
    ensures !IsNullOrWhiteSpace(term) ==> forall h :: h in r <==> h in hotels && Matches(h, term.value)
  {
    if IsNullOrWhiteSpace(term) then hotels else Search(hotels, term.value)
  }

  /** The search ignores the case of the term. */
  lemma FilterIgnoresTermCase(hotels: seq<Hotel>, term: string)
    ensures Filter(hotels, Some(Lower(term))) == Filter(hotels, Some(term))
  {
    LowerIdempotent(term);
    LowerKeepsWhiteSpace(term);
    assert IsNullOrWhiteSpace(Some(Lower(term))) <==> IsNullOrWhiteSpace(Some(term));
    assert forall h :: Matches(h, Lower(term)) == Matches(h, term);
    SearchRespectsMatches(hotels, Lower(term), term);
  }

  lemma {:induction false} SearchRespectsMatches(hotels: seq<Hotel>, a: string, b: string)
    requires forall h :: Matches(h, a) == Matches(h, b)
    ensures Search(hotels, a) == Search(hotels, b)
  {
    if |hotels| > 0 {
      SearchRespectsMatches(hotels[1..], a, b);
    }
  }

  // ---------------------------------------------------------------------
  // Ordering
  // ---------------------------------------------------------------------

  /** Ordinal (code point) lexicographic order on names. */
  predicate NameLe(a: string, b: string)
    decreases |a|
  {
    |a| == 0 || (|b| > 0 && (a[0] < b[0] || (a[0] == b[0] && NameLe(a[1..], b[1..]))))
  }

  lemma {:induction false} NameLeTotal(a: string, b: string)
    ensures NameLe(a, b) || NameLe(b, a)
    decreases |a|
  {
    if |a| > 0 && |b| > 0 && a[0] == b[0] {
      NameLeTotal(a[1..], b[1..]);
    }
  }

  lemma {:induction false} NameLeTransitive(a: string, b: string, c: string)
    requires NameLe(a, b) && NameLe(b, c)
    ensures NameLe(a, c)
    decreases |a|
  {
    if |a| > 0 && a[0] == b[0] && b[0] == c[0] {
      NameLeTransitive(a[1..], b[1..], c[1..]);
    }
  }

  ghost predicate SortedByName(s: seq<Hotel>) {
    forall i, j :: 0 <= i < j < |s| ==> NameLe(s[i].name, s[j].name)
  }

  /** Insert `h` into a name-sorted sequence, before the first larger name. */
  function InsertByName(h: Hotel, s: seq<Hotel>): (r: seq<Hotel>)
    requires SortedByName(s)
    ensures SortedByName(r)
    ensures multiset(r) == multiset(s) + multiset{h}
    ensures |r| == |s| + 1
    ensures forall x :: x in r ==> x == h || x in s
  {
    if |s| == 0 then [h]
    else if NameLe(h.name, s[0].name) then
      forall j | 0 <= j < |s| ensures NameLe(h.name, s[j].name) {
        if j > 0 { NameLeTransitive(h.name, s[0].name, s[j].name); }
      }
      [h] + s
    else
      NameLeTotal(h.name, s[0].name);
      var rest := InsertByName(h, s[1..]);
      assert forall x :: x in rest ==> NameLe(s[0].name, x.name);
      assert s == [s[0]] + s[1..];
      [s[0]] + rest
  }

  /** `OrderBy(h => h.Nombre)`: a permutation of the hotels, sorted by name. */
  function SortByName(s: seq<Hotel>): (r: seq<Hotel>)
    ensures SortedByName(r)
    ensures multiset(r) == multiset(s)
    ensures |r| == |s|
  {
    if |s| == 0 then []
    else
      assert s == [s[0]] + s[1..];
      InsertByName(s[0], SortByName(s[1..]))
  }

  // ---------------------------------------------------------------------
  // Paging
  // ---------------------------------------------------------------------

  /** LINQ `Skip`: drop the first `count` elements, none for a count below one. */
  function Skip(s: seq<Hotel>, count: int): (r: seq<Hotel>)
    ensures count <= 0 ==> r == s
    ensures 0 <= count <= |s| ==> r == s[count..]
    ensures count >= |s| ==> r == []
  {
    if count <= 0 then s else if count >= |s| then [] else s[count..]
  }

  /** LINQ `Take` on hotels. */
  function TakeHotels(s: seq<Hotel>, count: int): (r: seq<Hotel>)
    ensures |r| == if count <= 0 then 0 else if count < |s| then count else |s|
    ensures r == s[..|r|]
  {
    if count <= 0 then [] else if count >= |s| then s else s[..count]
  }

  /** The position of the first item of a page. */
  function PageStart(pageNumber: int, pageSize: int): int {
    (pageNumber - 1) * pageSize
  }

  /** The offset the query skips: `PageStart` computed in `int`. */
  function Offset(pageNumber: int, pageSize: int): int {
    Wrap32(PageStart(pageNumber, pageSize))
  }

  /** `PagedResultDto`. */
  datatype PagedResult = PagedResult(items: seq<Hotel>, totalCount: int, pageNumber: int, pageSize: int)
  {
    /** `TotalPages`: the ceiling of `totalCount / pageSize`. */
    function TotalPages(): (r: int)
      requires pageSize >= 1 && totalCount >= 0
      ensures r >= 0 && r * pageSize >= totalCount
      ensures r == 0 || (r - 1) * pageSize < totalCount
    {
      (totalCount + pageSize - 1) / pageSize
    }

    predicate HasPreviousPage() {
      pageNumber > 1
    }

    predicate HasNextPage()
      requires pageSize >= 1 && totalCount >= 0
    {
      pageNumber < TotalPages()
    }
  }

  /** `TotalPages` is the least page count that holds every item. */
  lemma TotalPagesIsLeast(p: PagedResult, k: int)
    requires p.pageSize >= 1 && p.totalCount >= 0
    requires k >= 0 && k * p.pageSize >= p.totalCount
    ensures p.TotalPages() <= k
  {
    var t := p.TotalPages();
    if t > k {
      assert (t - 1) * p.pageSize >= k * p.pageSize by {
        assert t - 1 >= k;
        MultiplyMonotone(k, t - 1, p.pageSize);
      }
    }
  }

  lemma MultiplyMonotone(a: int, b: int, c: nat)
    requires a <= b
    ensures a * c <= b * c
  {
  }

  /** `GetPagedAsync` followed by `GetPagedHotelsAsync`: filter, count, order
      by name, then slice the page. The controller admits only positive page
      numbers and sizes. */
  function GetPaged(hotels: seq<Hotel>, pageNumber: int, pageSize: int, term: Option<string>): (r: PagedResult)
    requires 1 <= pageNumber <= Int32Max && 1 <= pageSize <= Int32Max
    ensures r.totalCount == |Filter(hotels, term)|
    ensures r.pageNumber == pageNumber && r.pageSize == pageSize
    ensures |r.items| <= pageSize
    ensures SortedByName(r.items)
    ensures multiset(r.items) <= multiset(Filter(hotels, term))
    ensures PageStart(pageNumber, pageSize) <= Int32Max ==>
      r.items == TakeHotels(Skip(SortByName(Filter(hotels, term)), PageStart(pageNumber, pageSize)), pageSize)
  {
    var filtered := Filter(hotels, term);
    var ordered := SortByName(filtered);
    var offset := Offset(pageNumber, pageSize);
    OffsetOfSmallPage(pageNumber, pageSize);
    var page := TakeHotels(Skip(ordered, offset), pageSize);
    SliceOfSorted(ordered, offset, pageSize);
    PagedResult(page, |filtered|, pageNumber, pageSize)
  }

  /** A page start that fits in an `int` is skipped as it is. */
  lemma OffsetOfSmallPage(pageNumber: int, pageSize: int)
    requires pageNumber >= 1 && pageSize >= 1
    ensures PageStart(pageNumber, pageSize) <= Int32Max ==> Offset(pageNumber, pageSize) == PageStart(pageNumber, pageSize)
  {
    MultiplyMonotone(0, pageNumber - 1, pageSize);
  }

  /** A slice of a sorted sequence is sorted and draws on its elements. */
  lemma SliceOfSorted(s: seq<Hotel>, skip: int, take: int)
    requires SortedByName(s)
    ensures SortedByName(TakeHotels(Skip(s, skip), take))
    ensures multiset(TakeHotels(Skip(s, skip), take)) <= multiset(s)
  {
    var skipped := Skip(s, skip);
    assert SortedByName(skipped);
    var k := if skip <= 0 then 0 else if skip >= |s| then |s| else skip;
    assert s == s[..k] + skipped;
    var page := TakeHotels(skipped, take);
    assert skipped == page + skipped[|page|..];
    assert multiset(s) == multiset(s[..k]) + multiset(page) + multiset(skipped[|page|..]);
  }

  /** Page arithmetic: a page starts before the last item exactly when its
      number is at most `TotalPages`. */
  lemma PageStartsBeforeEndIffInRange(p: PagedResult)
    requires p.pageSize >= 1 && p.totalCount >= 0 && p.pageNumber >= 1
    ensures PageStart(p.pageNumber, p.pageSize) < p.totalCount <==> p.pageNumber <= p.TotalPages()
  {
    var t := p.TotalPages();
    if PageStart(p.pageNumber, p.pageSize) < p.totalCount {
      if t < p.pageNumber {
        MultiplyMonotone(t, p.pageNumber - 1, p.pageSize);
      }
    } else if p.pageNumber <= t {
      MultiplyMonotone(p.pageNumber - 1, t - 1, p.pageSize);
    }
  }

  /** The total count depends only on the hotels and the term. */
  lemma CountIgnoresPage(hotels: seq<Hotel>, term: Option<string>, p1: int, s1: int, p2: int, s2: int)
    requires 1 <= p1 <= Int32Max && 1 <= s1 <= Int32Max
    requires 1 <= p2 <= Int32Max && 1 <= s2 <= Int32Max
    ensures GetPaged(hotels, p1, s1, term).totalCount == GetPaged(hotels, p2, s2, term).totalCount
  {
  }

  /** A page holds items exactly when it is one of the first `TotalPages`
      pages; a page past the end is empty and keeps the total count. */
  lemma PageNonEmptyIffInRange(hotels: seq<Hotel>, pageNumber: int, pageSize: int, term: Option<string>)
    requires 1 <= pageNumber <= Int32Max && 1 <= pageSize <= Int32Max
    requires PageStart(pageNumber, pageSize) <= Int32Max
    ensures var r := GetPaged(hotels, pageNumber, pageSize, term);
      |r.items| > 0 <==> pageNumber <= r.TotalPages()
  {
    var r := GetPaged(hotels, pageNumber, pageSize, term);
    PageOfSequence(SortByName(Filter(hotels, term)), r);
  }

  /** The page-count arithmetic for one page cut from `s`. */
  lemma PageOfSequence(s: seq<Hotel>, r: PagedResult)
    requires r.pageNumber >= 1 && r.pageSize >= 1 && r.totalCount == |s|
    requires r.items == TakeHotels(Skip(s, PageStart(r.pageNumber, r.pageSize)), r.pageSize)
    ensures |r.items| > 0 <==> r.pageNumber <= r.TotalPages()
  {
    MultiplyMonotone(0, r.pageNumber - 1, r.pageSize);
    PageStartsBeforeEndIffInRange(r);
  }

  /** With no items there is a zero page count and never a next page. */
  lemma EmptyResultHasNoNextPage(p: PagedResult)
    requires p.pageSize >= 1 && p.totalCount == 0 && p.pageNumber >= 1
    ensures p.TotalPages() == 0 && !p.HasNextPage()
  {
  }

  /** There is a next page exactly when items remain after this page. */
  lemma NextPageIffItemsRemain(p: PagedResult)
    requires p.pageSize >= 1 && p.totalCount >= 0
    ensures p.HasNextPage() <==> p.pageNumber * p.pageSize < p.totalCount
  {
    var t := p.TotalPages();
    if p.pageNumber < t {
      MultiplyMonotone(p.pageNumber, t - 1, p.pageSize);
    } else {
      MultiplyMonotone(t, p.pageNumber, p.pageSize);
    }
  }

  /** The offset is computed in 32-bit arithmetic: page 65537 of size 65536
      wraps round to offset 0 and shows the first page again. */
  lemma LargePageWrapsToFirst(hotels: seq<Hotel>, term: Option<string>)
    ensures GetPaged(hotels, 65537, 65536, term).items == GetPaged(hotels, 1, 65536, term).items
  {
    assert Offset(65537, 65536) == 0;
    assert Offset(1, 65536) == 0;
  }

  /** `GetActiveHotelsAsync`: the active hotels, in store order. */
  function GetActiveHotels(hotels: seq<Hotel>): (r: seq<Hotel>)
    ensures forall h :: h in r <==> h in hotels && h.active
    ensures |r| <= |hotels|
  {
    if |hotels| == 0 then []
    else (if hotels[0].active then [hotels[0]] else []) + GetActiveHotels(hotels[1..])
  }

  /** Each active hotel is listed as often as it is stored, and no inactive one. */
  lemma {:induction false} ActiveHotelsKeepMultiplicity(hotels: seq<Hotel>)
    ensures forall h :: multiset(GetActiveHotels(hotels))[h] == if h.active then multiset(hotels)[h] else 0
  {
    if |hotels| > 0 {
      ActiveHotelsKeepMultiplicity(hotels[1..]);
      assert hotels == [hotels[0]] + hotels[1..];
    }
  }
}
