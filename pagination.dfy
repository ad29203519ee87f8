/** The pager under the question list: a Prev button, one button per page
    and a Next button, each with the page it requests, whether it is
    disabled and whether it is highlighted. */
module Pagination {
  import opened Wrappers

  /** A button of the pager and the page its click requests. */
  datatype Button = Button(target: int, disabled: bool, highlighted: bool)

  /** What the pager shows. */
  datatype Pager = Pager(prev: Button, numbers: seq<Button>, next: Button)

  /** The button for page `p` while `page` is shown: highlighted when it is
      that page, never disabled. */
  function NumberButton(page: int, p: int): (b: Button)
    ensures b.target == p && !b.disabled
    ensures b.highlighted <==> p == page
  {
    Button(p, false, p == page)
  }

  /** The page numbers `1..totalPages`, built one at a time. */
  method PageNumbers(totalPages: int) returns (pages: seq<int>)
    ensures |pages| == if totalPages < 0 then 0 else totalPages
    ensures forall k :: 0 <= k < |pages| ==> pages[k] == k + 1
  {
    pages := [];
    var i := 1;
    while i <= totalPages
      invariant 1 <= i <= if totalPages < 0 then 1 else totalPages + 1
      invariant |pages| == i - 1
      invariant forall k :: 0 <= k < |pages| ==> pages[k] == k + 1
    {
      pages := pages + [i];
      i := i + 1;
    }
  }

  /** The pager for `page` of `totalPages`; nothing is shown when there is
      at most one page. Prev requests the page before and is disabled on the
      first page, Next the page after and is disabled on the last page, and
      the numbered buttons request pages 1 to `totalPages` in order with only
      the shown page highlighted. */
  method Render(page: int, totalPages: int) returns (pager: Option<Pager>)
    ensures pager.None? <==> totalPages <= 1
    ensures pager.Some? ==>
      && pager.value.prev == Button(page - 1, page == 1, false)
      && pager.value.next == Button(page + 1, page == totalPages, false)
      && |pager.value.numbers| == totalPages
      && forall k :: 0 <= k < totalPages ==>
           && pager.value.numbers[k].target == k + 1
           && !pager.value.numbers[k].disabled
           && (pager.value.numbers[k].highlighted <==> k == page - 1)
    ensures pager.Some? ==>
      HighlightCount(pager.value.numbers) == if 1 <= page <= totalPages then 1 else 0
  {
    if totalPages <= 1 {
      return None;
    }
    var pages := PageNumbers(totalPages);
    var numbers := seq(|pages|, k requires 0 <= k < |pages| => NumberButton(page, pages[k]));
    OneHighlighted(numbers, page - 1);
    pager := Some(Pager(Button(page - 1, page == 1, false), numbers, Button(page + 1, page == totalPages, false)));
  }

  /** The number of highlighted buttons. */
  function HighlightCount(buttons: seq<Button>): nat
  {
    if buttons == [] then 0
    else (if buttons[0].highlighted then 1 else 0) + HighlightCount(buttons[1..])
  }

  /** When only the button at index `j` is highlighted, exactly one is; when
      none is, the count is zero. So a pager showing a page between 1 and
      `totalPages` highlights exactly one number, and none otherwise. */
  lemma {:induction false} OneHighlighted(buttons: seq<Button>, j: int)
    requires forall k :: 0 <= k < |buttons| ==> (buttons[k].highlighted <==> k == j)
    ensures HighlightCount(buttons) == if 0 <= j < |buttons| then 1 else 0
  {
    if buttons != [] {
      var rest := buttons[1..];
      assert forall k :: 0 <= k < |rest| ==> (rest[k].highlighted <==> k == j - 1) by {
        forall k | 0 <= k < |rest|
          ensures rest[k].highlighted <==> k == j - 1
        {
          assert rest[k] == buttons[k + 1];
        }
      }
      OneHighlighted(rest, j - 1);
    }
  }
}
