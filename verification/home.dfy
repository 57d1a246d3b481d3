/** The dashboard's list view: numbering of the loaded list and derivation of
    the displayed records from (full list, page number, search term). */
module Home {
  import opened JsText
  import opened Types

  /** Records per page. */
  const PageSize: nat := 50

  /** Length of a search term that is treated as a full owner address. */
  const AddressLength: nat := 42

  // ---------------------------------------------------------------------------
  // Index assignment on load
  // ---------------------------------------------------------------------------

  /** Numbers `raw` consecutively, the first entry getting `first`. */
  function NumberFrom(raw: seq<RawItem>, first: nat): (r: seq<ListItem>)
    ensures |r| == |raw|
    ensures forall i :: 0 <= i < |raw| ==> r[i].index == first + i && r[i].Raw() == raw[i]
    decreases |raw|
  {
    if raw == [] then []
    else [Numbered(raw[0], first)] + NumberFrom(raw[1..], first + 1)
  }

  /** Every entry's index is its 1-based position. */
  predicate WellIndexed(list: seq<ListItem>) {
    forall i :: 0 <= i < |list| ==> list[i].index == i + 1
  }

  /** The loaded list: each fetched entry keeps its fields and is given its
      1-based position in fetch order as `index`. */
  function AssignIndices(raw: seq<RawItem>): (r: seq<ListItem>)
    ensures |r| == |raw|
    ensures WellIndexed(r)
    ensures forall i :: 0 <= i < |raw| ==> r[i].Raw() == raw[i]
  {
    NumberFrom(raw, 1)
  }

  /** The set of indices carried by the entries of `list`. */
  function IndexSet(list: seq<ListItem>): set<nat> {
    set x | x in list :: x.index
  }

  /** The indices of a loaded list are exactly 1..n, strictly increasing
      along the list, hence pairwise distinct. */
  lemma IndicesAreOneToN(raw: seq<RawItem>)
    ensures forall n :: n in IndexSet(AssignIndices(raw)) <==> 1 <= n <= |raw|
    ensures forall i, j :: 0 <= i < j < |raw| ==> AssignIndices(raw)[i].index < AssignIndices(raw)[j].index
  {
    var list := AssignIndices(raw);
    forall n: nat | 1 <= n <= |raw|
      ensures n in IndexSet(list)
    {
      assert list[n - 1] in list;
    }
    forall n | n in IndexSet(list)
      ensures 1 <= n <= |raw|
    {
      var x :| x in list && x.index == n;
      var i :| 0 <= i < |list| && list[i] == x;
    }
  }

  // ---------------------------------------------------------------------------
  // Filter mode
  // ---------------------------------------------------------------------------

  /** The entry's owner address equals `term` ignoring (ASCII) case. */
  predicate OwnedBy(item: ListItem, term: string) {
    Lower(item.ownerAddress) == Lower(term)
  }

  /** The entries of `list` owned by `term`, as the list's `filter` yields them. */
  function FilterByOwner(list: seq<ListItem>, term: string): (r: seq<ListItem>)
    ensures |r| <= |list|
    ensures forall x :: x in r <==> x in list && OwnedBy(x, term)
    decreases |list|
  {
    if list == [] then []
    else (if OwnedBy(list[0], term) then [list[0]] else []) + FilterByOwner(list[1..], term)
  }

  /** The positions at or after `from` whose entry is owned by `term`, in
      increasing order: an independent description of what the filter keeps. */
  function MatchPositions(list: seq<ListItem>, term: string, from: nat): (ps: seq<nat>)
    requires from <= |list|
    ensures forall k :: 0 <= k < |ps| ==> from <= ps[k] < |list| && OwnedBy(list[ps[k]], term)
    ensures forall k, l :: 0 <= k < l < |ps| ==> ps[k] < ps[l]
    ensures forall i :: from <= i < |list| && OwnedBy(list[i], term) ==> i in ps
    decreases |list| - from
  {
    if from == |list| then []
    else (if OwnedBy(list[from], term) then [from] else []) + MatchPositions(list, term, from + 1)
  }

  /** `r` lists the entries of `list` at positions `ps`, in that order. */
  predicate Picks(list: seq<ListItem>, r: seq<ListItem>, ps: seq<nat>) {
    |r| == |ps| && forall k :: 0 <= k < |ps| ==> ps[k] < |list| && r[k] == list[ps[k]]
  }

  lemma PicksConcat(list: seq<ListItem>, a: seq<ListItem>, pa: seq<nat>, b: seq<ListItem>, pb: seq<nat>)
    requires Picks(list, a, pa) && Picks(list, b, pb)
    ensures Picks(list, a + b, pa + pb)
  {
    forall k | 0 <= k < |pa + pb|
      ensures (pa + pb)[k] < |list| && (a + b)[k] == list[(pa + pb)[k]]
    {
      if k >= |pa| {
        assert (a + b)[k] == b[k - |a|];
      }
    }
  }

  lemma {:induction false} FilterSuffixFollowsPositions(list: seq<ListItem>, term: string, from: nat)
    requires from <= |list|
    ensures Picks(list, FilterByOwner(list[from..], term), MatchPositions(list, term, from))
    decreases |list| - from
  {
    if from < |list| {
      FilterSuffixFollowsPositions(list, term, from + 1);
      assert list[from..][1..] == list[from + 1..];
      var head := if OwnedBy(list[from], term) then [list[from]] else [];
      var headPs := if OwnedBy(list[from], term) then [from] else [];
      assert Picks(list, head, headPs);
      PicksConcat(list, head, headPs, FilterByOwner(list[from + 1..], term), MatchPositions(list, term, from + 1));
    }
  }

  /** The filter keeps exactly the owned entries, each as often as it occurs,
      in their original relative order: its k-th result is the entry at the
      k-th matching position. */
  lemma FilterKeepsOrder(list: seq<ListItem>, term: string)
    ensures Picks(list, FilterByOwner(list, term), MatchPositions(list, term, 0))
  {
    FilterSuffixFollowsPositions(list, term, 0);
    assert list[0..] == list;
  }

  /** Lower-casing the search term first changes nothing: the comparison
      already ignores case on both sides. */
  lemma {:induction false} FilterIgnoresTermCase(list: seq<ListItem>, term: string)
    ensures forall x :: OwnedBy(x, Lower(term)) <==> OwnedBy(x, term)
    ensures FilterByOwner(list, Lower(term)) == FilterByOwner(list, term)
    decreases |list|
  {
    LowerIdempotent(term);
    if list != [] {
      FilterIgnoresTermCase(list[1..], term);
    }
  }

  // ---------------------------------------------------------------------------
  // Paginate mode
  // ---------------------------------------------------------------------------

  /** Position in the full list of the first entry of page `page` (1-based). */
  function PageStart(page: int): int {
    (page - 1) * PageSize
  }

  /** Page `page` of `list`: the list's `slice` from the page start, one page
      wide. */
  function Paginate(list: seq<ListItem>, page: int): (r: seq<ListItem>)
    ensures |r| <= PageSize
    ensures 1 <= page ==> r == list[Min(PageStart(page), |list|)..Min(PageStart(page) + PageSize, |list|)]
    ensures 1 <= page && |list| <= PageStart(page) ==> r == []
  {
    Slice(list, PageStart(page), PageStart(page) + PageSize)
  }

  /** Every entry of the list sits on exactly one page: entry `i` is entry
      `i % PageSize` of page `i / PageSize + 1`. */
  lemma EntryOnItsPage(list: seq<ListItem>, i: nat)
    requires i < |list|
    ensures var page := i / PageSize + 1;
            i % PageSize < |Paginate(list, page)| && Paginate(list, page)[i % PageSize] == list[i]
    ensures forall page :: 1 <= page && page != i / PageSize + 1 ==>
              !(PageStart(page) <= i < PageStart(page) + PageSize)
  {
    var page := i / PageSize + 1;
    assert PageStart(page) == i - i % PageSize;
    forall p | 1 <= p && p != page
      ensures !(PageStart(p) <= i < PageStart(p) + PageSize)
    {
      if p < page {
        assert PageStart(p) + PageSize <= PageStart(page);
      } else {
        assert PageStart(page) + PageSize <= PageStart(p);
      }
    }
  }

  // ---------------------------------------------------------------------------
  // Display derivation
  // ---------------------------------------------------------------------------

  /** The abbreviated address: the first seven characters, `...`, the last
      four, each taken with `slice` so that short addresses never fail. */
  function ShortAddress(address: string): (r: string)
    ensures r == address[..Min(7, |address|)] + "..." + address[Max(|address| - 4, 0)..]
    ensures |r| == Min(7, |address|) + 3 + Min(4, |address|)
    ensures |address| >= 11 ==> |r| == 14
    ensures |address| >= 11 ==>
              r[..7] == address[..7] && r[7..10] == "..." && r[10..] == address[|address| - 4..]
  {
    Slice(address, 0, 7) + "..." + SliceFrom(address, -4)
  }

  /** A list entry as displayed: the same fields plus its short address. */
  function Decorate(item: ListItem): (d: DerivedItem)
    ensures d.Base() == item
    ensures d.shortAddress == ShortAddress(item.ownerAddress)
  {
    DerivedItem(item.index, item.ownerAddress, item.point, item.asterix, item.power,
                ShortAddress(item.ownerAddress))
  }

  /** The selected entries, decorated one by one, in order. */
  function DecorateAll(list: seq<ListItem>): (r: seq<DerivedItem>)
    ensures |r| == |list|
    ensures Bases(r) == list
    ensures forall k :: 0 <= k < |r| ==> r[k].shortAddress == ShortAddress(list[k].ownerAddress)
  {
    seq(|list|, k requires 0 <= k < |list| => Decorate(list[k]))
  }

  /** Filter mode is entered exactly when the search term looks like a full
      address, i.e. has length 42. */
  predicate FilterMode(term: string) {
    |term| == AddressLength
  }

  /** The entries chosen for display, before decoration. */
  function Select(list: seq<ListItem>, page: int, term: string): (r: seq<ListItem>)
    ensures FilterMode(term) ==> forall x :: x in r <==> x in list && OwnedBy(x, term)
    ensures !FilterMode(term) ==> |r| <= PageSize
    ensures !FilterMode(term) && 1 <= page ==>
              r == list[Min(PageStart(page), |list|)..Min(PageStart(page) + PageSize, |list|)]
  {
    if FilterMode(term) then FilterByOwner(list, term) else Paginate(list, page)
  }

  /** The displayed list for the full list, the page number and the search
      term. */
  function CurrentList(list: seq<ListItem>, page: int, term: string): (r: seq<DerivedItem>)
    ensures Bases(r) == Select(list, page, term)
    ensures forall k :: 0 <= k < |r| ==> r[k].shortAddress == ShortAddress(r[k].ownerAddress)
  {
    DecorateAll(Select(list, page, term))
  }

  /** Mode selection: a term of any length other than 42 (empty, shorter or
      longer) shows the same page as no term at all; a term of length 42
      shows the same result on every page number. */
  lemma ModeSelection(list: seq<ListItem>, page: int, term: string)
    ensures !FilterMode(term) ==> CurrentList(list, page, term) == CurrentList(list, page, "")
    ensures FilterMode(term) ==> CurrentList(list, page, term) == CurrentList(list, 1, term)
  {
  }

  /** Paginate mode: the displayed entries are the clipped window
      `[start, start + 50)` of the list, in order, at most 50 of them, and
      none once the page lies past the end. */
  lemma PaginateModeWindow(list: seq<ListItem>, page: int, term: string)
    requires !FilterMode(term) && 1 <= page
    ensures var start := PageStart(page);
            Bases(CurrentList(list, page, term)) == list[Min(start, |list|)..Min(start + PageSize, |list|)]
    ensures |CurrentList(list, page, term)| <= PageSize
    ensures |list| <= PageStart(page) ==> CurrentList(list, page, term) == []
  {
  }

  /** Filter mode: an entry is displayed if and only if its owner address
      matches the term ignoring case; matches keep their relative order and
      multiplicity, and all of them have a 42-character address. */
  lemma FilterModeMatches(list: seq<ListItem>, page: int, term: string)
    requires FilterMode(term)
    ensures forall x :: x in Bases(CurrentList(list, page, term)) <==> x in list && OwnedBy(x, term)
    ensures Picks(list, Bases(CurrentList(list, page, term)), MatchPositions(list, term, 0))
    ensures forall x :: x in Bases(CurrentList(list, page, term)) ==> |x.ownerAddress| == AddressLength
  {
    FilterKeepsOrder(list, term);
    forall x | x in Bases(CurrentList(list, page, term))
      ensures |x.ownerAddress| == AddressLength
    {
      LowerEqualSameLength(x.ownerAddress, term);
    }
  }

  /** On a freshly loaded list, entry k of page p carries index
      `(p - 1) * 50 + k + 1`: derivation never renumbers. */
  lemma PageShowsLoadIndices(raw: seq<RawItem>, page: int, term: string)
    requires !FilterMode(term) && 1 <= page
    ensures var shown := CurrentList(AssignIndices(raw), page, term);
            forall k :: 0 <= k < |shown| ==>
              shown[k].index == PageStart(page) + k + 1 &&
              shown[k].Base().Raw() == raw[PageStart(page) + k]
  {
    var list := AssignIndices(raw);
    var shown := CurrentList(list, page, term);
    PaginateModeWindow(list, page, term);
    forall k | 0 <= k < |shown|
      ensures shown[k].index == PageStart(page) + k + 1
      ensures shown[k].Base().Raw() == raw[PageStart(page) + k]
    {
      assert shown[k].Base() == Bases(shown)[k];
    }
  }

  /** The worked example: 120 loaded entries; page 1 shows indices 1..50,
      page 3 shows the last 20 entries, indices 101..120. */
  lemma HundredTwentyEntries(raw: seq<RawItem>)
    requires |raw| == 120
    ensures |CurrentList(AssignIndices(raw), 1, "")| == 50
    ensures forall k :: 0 <= k < 50 ==> CurrentList(AssignIndices(raw), 1, "")[k].index == k + 1
    ensures |CurrentList(AssignIndices(raw), 3, "")| == 20
    ensures forall k :: 0 <= k < 20 ==> CurrentList(AssignIndices(raw), 3, "")[k].index == 101 + k
  {
    PageShowsLoadIndices(raw, 1, "");
    PageShowsLoadIndices(raw, 3, "");
    PaginateModeWindow(AssignIndices(raw), 1, "");
    PaginateModeWindow(AssignIndices(raw), 3, "");
  }

  /** The abbreviation of a typical address. */
  lemma ShortAddressExample()
    ensures ShortAddress("0x1234567890abcdef1234") == "0x12345...1234"
  {
  }

}
