/**
  The two-page spread flipbook component (`FlipBook`).

  The component owns two pieces of state, `isFlipping` and the flip
  direction, and receives `currentPage` from its parent; the number of pages
  is the number of children. `flipNext`/`flipPrev` start a flip when allowed,
  the end of the animation reports the new page to the parent and clears the
  flip, and rendering chooses which children sit on the left, on the right,
  and on the two faces of the turning leaf. The animation itself is left to
  the animation library; its completion is an explicit event.
 */
module FlipBook {
  import opened Wrappers

  datatype FlipDirection = Next | Prev

  datatype Book = Book(isFlipping: bool, direction: Option<FlipDirection>)

  const Resting := Book(false, None)

  /** The even page that opens the spread `currentPage` belongs to (`Math.floor(currentPage / 2) * 2`). */
  function DisplayedPage(currentPage: int): (d: int)
    ensures d % 2 == 0
    ensures d <= currentPage < d + 2
  {
    (currentPage / 2) * 2
  }

  lemma DisplayedPageUnique(currentPage: int, d: int)
    requires d % 2 == 0 && d <= currentPage < d + 2
    ensures d == DisplayedPage(currentPage)
  {
  }

  function LeftIndex(currentPage: int): int {
    DisplayedPage(currentPage)
  }

  function RightIndex(currentPage: int): int {
    DisplayedPage(currentPage) + 1
  }

  /** `flipNext`: ignored during a flip or on the last page; otherwise a forward flip starts. */
  function FlipNext(b: Book, currentPage: int, totalPages: int): (b': Book)
    ensures b.isFlipping || currentPage >= totalPages - 1 ==> b' == b
    ensures !b.isFlipping && currentPage < totalPages - 1 ==> b'.isFlipping && b'.direction == Some(Next)
  {
    if b.isFlipping || currentPage >= totalPages - 1 then b else Book(true, Some(Next))
  }

  /** `flipPrev`: ignored during a flip or on the first page; otherwise a backward flip starts. */
  function FlipPrev(b: Book, currentPage: int): (b': Book)
    ensures b.isFlipping || currentPage <= 0 ==> b' == b
    ensures !b.isFlipping && currentPage > 0 ==> b'.isFlipping && b'.direction == Some(Prev)
  {
    if b.isFlipping || currentPage <= 0 then b else Book(true, Some(Prev))
  }

  datatype Completion = Completion(reported: Option<int>, book: Book)

  /**
    `handleAnimationComplete`: the page one step in the flip direction is
    reported to the parent (nothing is reported with no direction), and the
    flip is over.
   */
  function AnimationComplete(b: Book, currentPage: int): (c: Completion)
    ensures c.book == Resting
    ensures c.reported.Some? <==> b.direction.Some?
    ensures c.reported.Some? ==> c.reported.value - currentPage == (if b.direction == Some(Next) then 1 else -1)
  {
    var reported :=
      match b.direction
      case Some(Next) => Some(currentPage + 1)
      case Some(Prev) => Some(currentPage - 1)
      case None => None;
    Completion(reported, Resting)
  }

  /** `children[i]`, which is `undefined` (renders nothing) outside the array. */
  function At<T>(pages: seq<T>, i: int): (r: Option<T>)
    ensures r.Some? <==> 0 <= i < |pages|
    ensures r.Some? ==> r.value == pages[i]
  {
    if 0 <= i < |pages| then Some(pages[i]) else None
  }

  /** The turning leaf: the index on its front, the content of both faces, and its side. */
  datatype Leaf<T> = Leaf(index: int, front: Option<T>, back: Option<T>, onLeft: bool)

  /** What the component renders: the static left and right pages and the turning leaf. */
  datatype Spread<T> = Spread(left: Option<T>, right: Option<T>, leaf: Option<Leaf<T>>)

  /**
    Rendering. A static page is shown when its index is below the page count,
    except that a backward flip covers the left one and a forward flip the
    right one. The turning leaf is the right page going forward and the left
    page going back; its back face is the page two further on that side when
    that page exists.
   */
  function View<T>(b: Book, currentPage: int, pages: seq<T>): (s: Spread<T>)
    ensures var left := DisplayedPage(currentPage);
      && (s.left.Some? <==> 0 <= left < |pages| && !(b.isFlipping && b.direction == Some(Prev)))
      && (s.left.Some? ==> s.left.value == pages[left])
    ensures var right := DisplayedPage(currentPage) + 1;
      && (s.right.Some? <==> 0 <= right < |pages| && !(b.isFlipping && b.direction == Some(Next)))
      && (s.right.Some? ==> s.right.value == pages[right])
    ensures s.leaf.Some? ==> b.isFlipping
    ensures s.leaf.Some? ==>
      var l := s.leaf.value;
      && l.onLeft == (b.direction == Some(Prev))
      && l.index == (if b.direction == Some(Next) then DisplayedPage(currentPage) + 1 else DisplayedPage(currentPage))
      && l.front == At(pages, l.index)
    ensures s.leaf.Some? && b.direction == Some(Next) ==>
      s.leaf.value.back == At(pages, DisplayedPage(currentPage) + 2)
    ensures s.leaf.Some? && b.direction == Some(Prev) ==>
      s.leaf.value.back == (if DisplayedPage(currentPage) - 1 >= 0 then At(pages, DisplayedPage(currentPage) - 1) else None)
    ensures s.leaf.Some? && b.direction.None? ==> s.leaf.value.back.None?
  {
    var total := |pages|;
    var left := LeftIndex(currentPage);
    var right := RightIndex(currentPage);
    var flipping := if b.direction == Some(Next) then right else left;
    var staticLeft := if left < total && !(b.direction == Some(Prev) && b.isFlipping) then At(pages, left) else None;
    var staticRight := if right < total && !(b.direction == Some(Next) && b.isFlipping) then At(pages, right) else None;
    var back :=
      if b.direction == Some(Next) && left + 2 < total then At(pages, left + 2)
      else if b.direction == Some(Prev) && right - 2 >= 0 then At(pages, right - 2)
      else None;
    var leaf :=
      if b.isFlipping && flipping < total
      then Some(Leaf(flipping, At(pages, flipping), back, b.direction == Some(Prev)))
      else None;
    Spread(staticLeft, staticRight, leaf)
  }

  // ---- the book together with the parent that owns `currentPage` ----

  /** The book and the page its parent holds; the parent stores every reported page. */
  datatype Reader = Reader(currentPage: int, book: Book)

  datatype Action = ClickNext | ClickPrev | Complete

  function Act(r: Reader, a: Action, totalPages: int): Reader {
    match a
    case ClickNext => r.(book := FlipNext(r.book, r.currentPage, totalPages))
    case ClickPrev => r.(book := FlipPrev(r.book, r.currentPage))
    case Complete =>
      var c := AnimationComplete(r.book, r.currentPage);
      Reader(if c.reported.Some? then c.reported.value else r.currentPage, c.book)
  }

  function Perform(r: Reader, actions: seq<Action>, totalPages: int): Reader
    decreases |actions|
  {
    if |actions| == 0 then r else Perform(Act(r, actions[0], totalPages), actions[1..], totalPages)
  }

  /**
    The page is in range, a flip is under way exactly when it has a
    direction, and a flip only runs where its target page exists.
   */
  ghost predicate Consistent(r: Reader, totalPages: int) {
    && 0 <= r.currentPage < totalPages
    && (r.book.isFlipping <==> r.book.direction.Some?)
    && (r.book.direction == Some(Next) ==> r.currentPage < totalPages - 1)
    && (r.book.direction == Some(Prev) ==> r.currentPage > 0)
  }

  lemma ActConsistent(r: Reader, a: Action, totalPages: int)
    requires Consistent(r, totalPages)
    ensures Consistent(Act(r, a, totalPages), totalPages)
  {
  }

  /** Any sequence of clicks and animation completions keeps the page within [0, totalPages). */
  lemma {:induction false} PerformConsistent(r: Reader, actions: seq<Action>, totalPages: int)
    requires Consistent(r, totalPages)
    ensures Consistent(Perform(r, actions, totalPages), totalPages)
    ensures 0 <= Perform(r, actions, totalPages).currentPage < totalPages
    decreases |actions|
  {
    if |actions| > 0 {
      ActConsistent(r, actions[0], totalPages);
      PerformConsistent(Act(r, actions[0], totalPages), actions[1..], totalPages);
    }
  }

  /**
    In a consistent state the turning leaf is always rendered during a flip,
    so its animation can complete and the flip cannot stay stuck.
   */
  lemma LeafShownWhileFlipping<T>(r: Reader, pages: seq<T>)
    requires Consistent(r, |pages|) && r.book.isFlipping
    ensures View(r.book, r.currentPage, pages).leaf.Some?
    ensures View(r.book, r.currentPage, pages).leaf.value.front.Some?
  {
  }

  /** A completed forward flip from the left page of a spread keeps the same spread on screen. */
  lemma ForwardFromLeftPageKeepsSpread(r: Reader, totalPages: int)
    requires Consistent(r, totalPages) && r.currentPage % 2 == 0 && r.book == Resting
    requires r.currentPage < totalPages - 1
    ensures var r' := Perform(r, [ClickNext, Complete], totalPages);
      && r'.currentPage == r.currentPage + 1
      && DisplayedPage(r'.currentPage) == DisplayedPage(r.currentPage)
  {
    var actions := [ClickNext, Complete];
    assert actions[1..][1..] == [];
    DisplayedPageUnique(r.currentPage + 1, r.currentPage);
  }
}
