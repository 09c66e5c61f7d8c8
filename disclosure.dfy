/**
 * Single-open disclosure: a `number | null` state cell naming the one expanded position, if any.
 * The `Accordion` component (identical in the terminal and installation pages) and the errors
 * page's expanded entry both follow the same click rule: `open === index ? null : index`.
 */
module Disclosure {

  import opened Wrappers

  /** The click rule on position `index`: clicking the open position closes it, any other opens it. */
  function Toggle(open: Option<nat>, index: nat): (r: Option<nat>)
    ensures r == None <==> open == Some(index)
    ensures r.Some? ==> r.value == index
  {
    if open == Some(index) then None else Some(index)
  }

  /** Whether the item at `index` shows its content and a rotated chevron. */
  predicate IsOpen(open: Option<nat>, index: nat) {
    open == Some(index)
  }

  /** The positions among `count` rendered items that show their content. */
  function OpenPositions(open: Option<nat>, count: nat): (r: set<nat>)
    ensures |r| <= 1
    ensures forall i: nat :: i in r <==> i < count && IsOpen(open, i)
  {
    var r := set i: nat | i < count && IsOpen(open, i);
    if open.Some? && open.value < count then
      assert r == {open.value};
      r
    else
      assert r == {};
      r
  }

  /** The state after clicking the positions of `clicks` in order, starting from `open`. */
  function AfterClicks(open: Option<nat>, clicks: seq<nat>): Option<nat>
    decreases |clicks|
  {
    if clicks == [] then open else AfterClicks(Toggle(open, clicks[0]), clicks[1..])
  }

  /** After any non-empty run of clicks, either nothing is open or the last clicked position is. */
  lemma {:induction false} OnlyLastClickedCanBeOpen(open: Option<nat>, clicks: seq<nat>)
    requires |clicks| > 0
    ensures AfterClicks(open, clicks) in {None, Some(clicks[|clicks| - 1])}
    decreases |clicks|
  {
    if |clicks| > 1 {
      OnlyLastClickedCanBeOpen(Toggle(open, clicks[0]), clicks[1..]);
      assert clicks[1..][|clicks| - 2] == clicks[|clicks| - 1];
    }
  }

  /** Two clicks on the same position: from that position open, it reopens; from anything else it ends closed. */
  lemma ToggleTwice(open: Option<nat>, index: nat)
    ensures Toggle(Toggle(open, index), index) == (if open == Some(index) then open else None)
  {
  }

  /** A click on a different position replaces the open one, whatever it was. */
  lemma ToggleOther(open: Option<nat>, index: nat, other: nat)
    requires index != other
    ensures Toggle(Toggle(open, index), other) == Some(other)
  {
  }

  /** One item of an accordion: a title and content shown only while the item is open. */
  datatype AccordionItem = AccordionItem(title: string, content: string)

  /** The `Accordion` component and its `openIndex` state cell. */
  class Accordion {
    const items: seq<AccordionItem>
    var openIndex: Option<nat>

    /** The open position names a rendered item, unless there are none and the initial 0 is kept. */
    ghost predicate Valid()
      reads this
    {
      openIndex.Some? ==> openIndex.value < |items| || |items| == 0
    }

    /** `useState<number | null>(0)`: the first item starts open. */
    constructor(items: seq<AccordionItem>)
      ensures Valid()
      ensures this.items == items && openIndex == Some(0)
    {
      this.items := items;
      openIndex := Some(0);
    }

    /** The click handler of the item at `index`; only rendered items have a button. */
    method Click(index: nat)
      requires Valid() && index < |items|
      modifies this
      ensures Valid()
      ensures openIndex == Toggle(old(openIndex), index)
    {
      openIndex := Toggle(openIndex, index);
    }

    /** Which items currently show their content: never more than one. */
    function ShownItems(): (r: set<nat>)
      reads this
      ensures |r| <= 1
      ensures forall i: nat :: i in r <==> i < |items| && openIndex == Some(i)
    {
      OpenPositions(openIndex, |items|)
    }
  }

}
