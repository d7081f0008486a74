/** Offset pages linked by next and previous. */
module Paging {
  import opened Common

  /** A link to another page, as its query parameters. */
  datatype Link = Link(limit: int, offset: int)

  datatype Page<T> = Page(count: nat, limit: nat, offset: nat, next: Option<Link>, previous: Option<Link>,
                          results: seq<T>)

  /** At least one, at most the configured maximum (a maximum below one still gives one). */
  function Clamp(limit: int, maximum: int): (r: nat)
    ensures 1 <= r <= Max(1, maximum)
    ensures 1 <= limit <= maximum ==> r == limit
  {
    Max(1, Min(limit, maximum))
  }

  function Paginate<T>(all: seq<T>, limit: int, offset: int, maximum: int): (p: Page<T>)
    ensures p.limit == Clamp(limit, maximum) && p.offset == Max(0, offset) && p.count == |all|
  {
    var l := Clamp(limit, maximum);
    var o := Max(0, offset);
    Page(|all|, l, o,
         if o + l < |all| then Some(Link(l, o + l)) else None,
         if o > 0 then Some(Link(l, Max(0, o - l))) else None,
         all[Min(o, |all|)..Min(o + l, |all|)])
  }

  function Follow<T>(all: seq<T>, link: Link, maximum: int): Page<T> {
    Paginate(all, link.limit, link.offset, maximum)
  }

  /** The pages met by following next until there is none. */
  function Forward<T>(all: seq<T>, p: Page<T>, maximum: int): (pages: seq<Page<T>>)
    requires p == Paginate(all, p.limit, p.offset, maximum)
    ensures pages != [] && pages[0] == p
    decreases |all| - p.offset
  {
    if p.next.None? then [p] else [p] + Forward(all, Follow(all, p.next.value, maximum), maximum)
  }

  function Concat<T>(pages: seq<Page<T>>): seq<T> {
    if pages == [] then [] else pages[0].results + Concat(pages[1..])
  }

  /** A page's limit is already clamped, so its links keep it. */
  lemma ClampedLimitStays(limit: int, maximum: int)
    ensures Clamp(Clamp(limit, maximum), maximum) == Clamp(limit, maximum)
  {
  }

  /** From any page on, the pages ahead hold exactly the rest of the sequence. */
  lemma {:induction false} ForwardCovers<T>(all: seq<T>, p: Page<T>, maximum: int)
    requires p == Paginate(all, p.limit, p.offset, maximum)
    ensures Concat(Forward(all, p, maximum)) == all[Min(p.offset, |all|)..]
    decreases |all| - p.offset
  {
    var pages := Forward(all, p, maximum);
    if p.next.None? {
      assert pages[1..] == [];
    } else {
      var q := Follow(all, p.next.value, maximum);
      ForwardCovers(all, q, maximum);
      assert pages[1..] == Forward(all, q, maximum);
      assert all[p.offset..] == all[p.offset..p.offset + p.limit] + all[p.offset + p.limit..];
    }
  }

  /** Whatever limit is asked for, following next from the start yields every item once, in order. */
  lemma AllPagesCoverOnce<T>(all: seq<T>, limit: int, maximum: int)
    ensures Concat(Forward(all, Paginate(all, limit, 0, maximum), maximum)) == all
  {
    ClampedLimitStays(limit, maximum);
    ForwardCovers(all, Paginate(all, limit, 0, maximum), maximum);
  }

  lemma OneLimitMore(offset: nat, limit: nat, k: int)
    ensures offset + limit + (k - 1) * limit == offset + k * limit
  {
  }

  /** Page number k of a forward walk starts k limits further on, and is full unless it is the last. */
  lemma {:induction false} ForwardOffsets<T>(all: seq<T>, p: Page<T>, maximum: int, k: nat)
    requires p == Paginate(all, p.limit, p.offset, maximum)
    requires k < |Forward(all, p, maximum)|
    ensures var q := Forward(all, p, maximum)[k];
            && q == Paginate(all, p.limit, p.offset + k * p.limit, maximum)
            && (k < |Forward(all, p, maximum)| - 1 ==> q.next.Some? && |q.results| == p.limit)
    decreases k
  {
    if k > 0 {
      var q := Follow(all, p.next.value, maximum);
      ForwardOffsets(all, q, maximum, k - 1);
      assert Forward(all, p, maximum)[k] == Forward(all, q, maximum)[k - 1];
      OneLimitMore(p.offset, p.limit, k);
    }
  }

  /** previous of any page reached from the start is the page before it; the first has none. */
  lemma PreviousIsThePageBefore<T>(all: seq<T>, limit: int, maximum: int, k: nat)
    requires k < |Forward(all, Paginate(all, limit, 0, maximum), maximum)|
    ensures var pages := Forward(all, Paginate(all, limit, 0, maximum), maximum);
            && (k == 0 <==> pages[k].previous.None?)
            && (k > 0 ==> Follow(all, pages[k].previous.value, maximum) == pages[k - 1])
  {
    ClampedLimitStays(limit, maximum);
    var p := Paginate(all, limit, 0, maximum);
    ForwardOffsets(all, p, maximum, k);
    if k > 0 {
      ForwardOffsets(all, p, maximum, k - 1);
      assert k * p.limit == (k - 1) * p.limit + p.limit;
      assert (k - 1) * p.limit >= 0;
    }
  }

  /**
   * Started elsewhere, going back and forth need not return: it does exactly
   * when the page starts at least one limit from the beginning and inside the
   * sequence.
   */
  lemma BackAndForthExactly<T>(all: seq<T>, limit: int, offset: int, maximum: int)
    requires offset > 0
    ensures var p := Paginate(all, limit, offset, maximum);
            var back := Follow(all, p.previous.value, maximum);
            (back.next.Some? && Follow(all, back.next.value, maximum) == p)
            <==> (p.limit <= p.offset < |all|)
  {
    ClampedLimitStays(limit, maximum);
  }

  /**
   * Two items a page over three items: from offset one, previous leads to the start
   * and next from there to offset two.
   */
  lemma BackAndForthMissesOffset<T>(a: T, b: T, c: T)
    ensures var (all, maximum) := ([a, b, c], 2);
            var p := Paginate(all, 2, 1, maximum);
            var back := Follow(all, p.previous.value, maximum);
            && p.previous.Some? && back.offset == 0 && back.next.Some?
            && Follow(all, back.next.value, maximum).offset == 2 && Follow(all, back.next.value, maximum) != p
  {
    BackAndForthExactly([a, b, c], 2, 1, 2);
  }
}
