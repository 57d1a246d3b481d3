/** The dashboard's view state and the paging controls, as a small state
    machine over user and load events. */
module Paging {
  import opened Types
  import opened Home

  /** The state the derived list depends on. */
  datatype View = View(totalList: seq<ListItem>, pageNumber: int, searchTerm: string)

  /** The state on mount: nothing loaded, page 1, empty search box. */
  const Initial: View := View([], 1, "")

  /** On mount nothing is displayed, the Prev/Next controls are shown, and
      the state is the unloaded one. */
  lemma InitialState()
    ensures Initial.pageNumber == 1 && Initial.totalList == [] && |Initial.searchTerm| == 0
    ensures Displayed(Initial) == [] && ControlsShown(Initial)
  {
  }

  /** What the page displays in state `v`. */
  function Displayed(v: View): seq<DerivedItem> {
    CurrentList(v.totalList, v.pageNumber, v.searchTerm)
  }

  /** The Prev/Next buttons are rendered only outside filter mode. */
  predicate ControlsShown(v: View) {
    !FilterMode(v.searchTerm)
  }

  /** The Prev button: ignored on page 1, otherwise one page back. */
  function OnPrev(v: View): (r: View)
    ensures r.totalList == v.totalList && r.searchTerm == v.searchTerm
    ensures v.pageNumber == 1 ==> r == v
    ensures v.pageNumber != 1 ==> r.pageNumber + 1 == v.pageNumber
    ensures 1 <= v.pageNumber ==> 1 <= r.pageNumber
  {
    if v.pageNumber == 1 then v else v.(pageNumber := v.pageNumber - 1)
  }

  /** The Next button: ignored while the displayed page holds fewer than 50
      entries, otherwise one page forward. Outside filter mode this means it
      advances exactly when the current page of the list is full. */
  function OnNext(v: View): (r: View)
    ensures r.totalList == v.totalList && r.searchTerm == v.searchTerm
    ensures |Displayed(v)| < PageSize ==> r == v
    ensures PageSize <= |Displayed(v)| ==> r == v.(pageNumber := v.pageNumber + 1)
    ensures r.pageNumber == v.pageNumber || r.pageNumber == v.pageNumber + 1
    ensures ControlsShown(v) && 1 <= v.pageNumber ==>
              (r.pageNumber == v.pageNumber + 1 <==> PageStart(v.pageNumber) + PageSize <= |v.totalList|)
  {
    if |Displayed(v)| < PageSize then v else v.(pageNumber := v.pageNumber + 1)
  }

  /** Everything that changes the view: the two buttons, typing in the search
      box, and the list fetch completing with the raw entries. */
  datatype Event = Prev | Next | Typed(term: string) | Loaded(raw: seq<RawItem>)

  /** One event. Buttons that are not rendered cannot be pressed; typing
      replaces the term and loading replaces the list, neither touching the
      page number. */
  function Step(v: View, e: Event): (r: View)
    ensures (e.Prev? || e.Next?) && !ControlsShown(v) ==> r == v
    ensures e.Prev? && ControlsShown(v) ==> r == OnPrev(v)
    ensures e.Next? && ControlsShown(v) ==> r == OnNext(v)
    ensures e.Typed? ==> r.searchTerm == e.term && r.totalList == v.totalList && r.pageNumber == v.pageNumber
    ensures e.Loaded? ==> r.totalList == AssignIndices(e.raw) && r.searchTerm == v.searchTerm && r.pageNumber == v.pageNumber
  {
    match e
    case Prev => if ControlsShown(v) then OnPrev(v) else v
    case Next => if ControlsShown(v) then OnNext(v) else v
    case Typed(term) => v.(searchTerm := term)
    case Loaded(raw) => v.(totalList := AssignIndices(raw))
  }

  /** A sequence of events, in order. */
  function Run(v: View, events: seq<Event>): View
    decreases |events|
  {
    if events == [] then v else Run(Step(v, events[0]), events[1..])
  }

  /** How many list loads a sequence of events contains. */
  function LoadCount(events: seq<Event>): (n: nat)
    ensures n <= |events|
    ensures n == 0 <==> forall i :: 0 <= i < |events| ==> !events[i].Loaded?
    decreases |events|
  {
    if events == [] then 0 else (if events[0].Loaded? then 1 else 0) + LoadCount(events[1..])
  }

  /** The page number is at least 1 and the page starts no further than the
      end of the list (it may start exactly at the end: an empty page). */
  predicate Bounded(v: View) {
    1 <= v.pageNumber && PageStart(v.pageNumber) <= |v.totalList|
  }

  /** Before the list has arrived: empty list, first page. */
  predicate Unloaded(v: View) {
    v.totalList == [] && v.pageNumber == 1
  }

  /** No event moves the page number below 1. */
  lemma StepKeepsPageAtLeastOne(v: View, e: Event)
    requires 1 <= v.pageNumber
    ensures 1 <= Step(v, e).pageNumber
  {
  }

  /** From page 1 upward, the page number stays at least 1 whatever happens. */
  lemma {:induction false} PageNeverBelowOne(v: View, events: seq<Event>)
    requires 1 <= v.pageNumber
    ensures 1 <= Run(v, events).pageNumber
    decreases |events|
  {
    if events != [] {
      StepKeepsPageAtLeastOne(v, events[0]);
      PageNeverBelowOne(Step(v, events[0]), events[1..]);
    }
  }

  /** Over a fixed list, the buttons and typing keep the page within reach
      of the list: Next only moves onto a page that starts at or before the
      end. */
  lemma StepKeepsBounded(v: View, e: Event)
    requires Bounded(v) && !e.Loaded?
    ensures Bounded(Step(v, e))
  {
  }

  /** Before loading, the buttons are ignored (the displayed list is empty),
      so the page stays 1; the load itself leads to a bounded state. */
  lemma StepBeforeLoad(v: View, e: Event)
    requires Unloaded(v)
    ensures !e.Loaded? ==> Unloaded(Step(v, e))
    ensures e.Loaded? ==> Bounded(Step(v, e))
  {
  }

  lemma {:induction false} RunBounded(v: View, events: seq<Event>)
    requires (Unloaded(v) && LoadCount(events) <= 1) || (Bounded(v) && LoadCount(events) == 0)
    ensures Bounded(Run(v, events))
    decreases |events|
  {
    if events == [] {
      assert Run(v, events) == v;
    } else {
      var w := Step(v, events[0]);
      if Unloaded(v) {
        StepBeforeLoad(v, events[0]);
      } else {
        StepKeepsBounded(v, events[0]);
      }
      RunBounded(w, events[1..]);
    }
  }

  /** The reachability invariant of a session (the list is fetched once, on
      mount): after any sequence of events with at most one load, the page
      number is at least 1 and `(page - 1) * 50 <= |list|`. */
  lemma SessionStaysBounded(events: seq<Event>)
    requires LoadCount(events) <= 1
    ensures 1 <= Run(Initial, events).pageNumber
    ensures PageStart(Run(Initial, events).pageNumber) <= |Run(Initial, events).totalList|
  {
    RunBounded(Initial, events);
  }

  /** The known quirk of detecting the last page by "fewer than 50 shown":
      when the list ends exactly on a full page, Next steps once onto an
      empty page, and only there stops. */
  lemma FullLastPageQuirk(list: seq<ListItem>, k: nat, term: string)
    requires 1 <= k && |list| == k * PageSize && !FilterMode(term)
    ensures var next := Step(View(list, k, term), Next);
            next.pageNumber == k + 1 && Displayed(next) == [] && Step(next, Next) == next
  {
    var next := Step(View(list, k, term), Next);
    assert next.pageNumber == k + 1;
    PaginateModeWindow(list, k + 1, term);
  }

  /** The other side of the heuristic: when the list does not end on a full
      page, Next on its last page changes nothing (120 entries: page 3 shows
      20 and stays). */
  lemma NextStopsOnPartialLastPage(list: seq<ListItem>, term: string)
    requires |list| % PageSize != 0 && !FilterMode(term)
    ensures var last := View(list, |list| / PageSize + 1, term);
            0 < |Displayed(last)| < PageSize && Step(last, Next) == last
  {
    var page := |list| / PageSize + 1;
    assert PageStart(page) == |list| - |list| % PageSize;
    PaginateModeWindow(list, page, term);
  }

}
