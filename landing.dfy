/** The interactive parts of the landing page in App.tsx: the accordion's single
    open item and its arrow-key focus movement, the toast, and the header's
    mobile menu. Rendering, focus calls on DOM nodes, scrolling and timers are
    left out; what remains is the state the handlers set and the index they
    compute. */
module Landing {
  import opened Common

  // ---------------------------------------------------------------------------
  // Accordion

  /** The open item after toggling `id`: toggling the open item closes it, and
      toggling any other item opens that one instead. */
  function Toggled(openId: Option<string>, id: string): Option<string>
  {
    if openId == Some(id) then None else Some(id)
  }

  class Accordion {
    /** The id of the open item; one value, so at most one item is open. */
    var openId: Option<string>

    constructor ()
      ensures openId == None
    {
      openId := None;
    }

    method ToggleItem(id: string)
      modifies this
      ensures openId == Toggled(old(openId), id)
    {
      openId := if openId == Some(id) then None else Some(id);
    }
  }

  /** Toggling closes exactly the open item and opens any other; afterwards at
      most one item is open. */
  lemma ToggleClosesOrOpens(openId: Option<string>, id: string)
    ensures Toggled(openId, id) == None <==> openId == Some(id)
    ensures Toggled(openId, id) == Some(id) <==> openId != Some(id)
    ensures forall a, b :: Toggled(openId, id) == Some(a) && Toggled(openId, id) == Some(b) ==> a == b
  {
  }

  /** Toggling the same item twice restores the previous state exactly when
      nothing or that item was open; with another item open, the second toggle
      closes everything. */
  lemma ToggleTwice(openId: Option<string>, id: string)
    ensures Toggled(Toggled(openId, id), id) == openId <==> openId.None? || openId == Some(id)
    ensures Toggled(Toggled(openId, id), id) == (if openId == Some(id) then Some(id) else None)
  {
  }

  const ArrowDown := "ArrowDown"
  const ArrowUp := "ArrowUp"

  /** The index that receives focus for a key pressed on item `index` of `n`:
      the next one for ArrowDown and the previous one for ArrowUp, wrapping
      around; other keys move nothing. */
  function FocusTarget(key: string, index: int, n: int): (r: Option<int>)
    requires 0 <= index < n
    ensures r.Some? <==> key == ArrowDown || key == ArrowUp
    ensures r.Some? ==> 0 <= r.value < n
  {
    if key == ArrowDown then Some((index + 1) % n)
    else if key == ArrowUp then Some((index - 1 + n) % n)
    else None
  }

  lemma ModBelow(x: int, n: int)
    requires 0 <= x < n
    ensures x % n == x
  {
  }

  lemma ModSelf(n: int)
    requires 0 < n
    ensures n % n == 0
  {
  }

  lemma ModShift(y: int, n: int)
    requires 0 <= y < n
    ensures (y + n) % n == y
  {
  }

  /** ArrowDown moves to the following item, and from the last item back to the
      first; ArrowUp moves to the preceding one, and from the first to the last. */
  lemma FocusWraps(index: int, n: int)
    requires 0 <= index < n
    ensures FocusTarget(ArrowDown, index, n) == Some(if index == n - 1 then 0 else index + 1)
    ensures FocusTarget(ArrowUp, index, n) == Some(if index == 0 then n - 1 else index - 1)
  {
    if index == n - 1 { ModSelf(n); } else { ModBelow(index + 1, n); }
    if index == 0 { ModBelow(n - 1, n); } else { ModShift(index - 1, n); }
  }

  /** ArrowUp undoes ArrowDown and ArrowDown undoes ArrowUp. */
  lemma UpUndoesDown(index: int, n: int)
    requires 0 <= index < n
    ensures FocusTarget(ArrowUp, FocusTarget(ArrowDown, index, n).value, n) == Some(index)
    ensures FocusTarget(ArrowDown, FocusTarget(ArrowUp, index, n).value, n) == Some(index)
  {
    FocusWraps(index, n);
    FocusWraps(FocusTarget(ArrowDown, index, n).value, n);
    FocusWraps(FocusTarget(ArrowUp, index, n).value, n);
  }

  /** The index reached from `index` after `m` presses of ArrowDown. */
  function Downs(index: int, n: int, m: nat): (r: int)
    requires 0 <= index < n
    ensures 0 <= r < n
  {
    if m == 0 then index else FocusTarget(ArrowDown, Downs(index, n, m - 1), n).value
  }

  /** Up to `n` presses of ArrowDown advance focus by one item each, wrapping
      once past the last item. */
  lemma {:induction false} DownsAdvance(index: int, n: int, m: nat)
    requires 0 <= index < n && m <= n
    ensures Downs(index, n, m) == if index + m < n then index + m else index + m - n
  {
    if m > 0 {
      DownsAdvance(index, n, m - 1);
      FocusWraps(Downs(index, n, m - 1), n);
    }
  }

  /** `n` presses of ArrowDown bring focus back to where it started. */
  lemma DownsCycle(index: int, n: int)
    requires 0 <= index < n
    ensures Downs(index, n, n) == index
  {
    DownsAdvance(index, n, n);
  }

  // ---------------------------------------------------------------------------
  // Toast

  datatype ToastInfo = ToastInfo(show: bool, message: string)

  /** The hidden toast: the initial state and the state every close returns to. */
  const HiddenToast := ToastInfo(false, "")

  class Page {
    var toastInfo: ToastInfo

    constructor ()
      ensures toastInfo == HiddenToast
    {
      toastInfo := HiddenToast;
    }

    /** Shows `message`; the five-second timer that hides it again is left out. */
    method ShowToast(message: string)
      modifies this
      ensures toastInfo == ToastInfo(true, message)
    {
      toastInfo := ToastInfo(true, message);
    }

    /** The toast's close button, and the timer's callback. */
    method CloseToast()
      modifies this
      ensures toastInfo == HiddenToast
    {
      toastInfo := ToastInfo(false, "");
    }
  }

  // ---------------------------------------------------------------------------
  // Header navigation

  /** The page sections the header can scroll to. */
  const SectionIds := ["hero", "about", "expect", "sessions", "policies", "faq", "book"]

  /** The ids of the header's navigation links, in display order. */
  const NavLinkIds := ["about", "expect", "sessions", "policies", "faq", "book"]

  class Header {
    var isOpen: bool

    constructor ()
      ensures !isOpen
    {
      isOpen := false;
    }

    /** The mobile menu button flips the menu open or closed. */
    method ToggleMenu()
      modifies this
      ensures isOpen == !old(isOpen)
    {
      isOpen := !isOpen;
    }

    /** A mobile navigation link closes the menu, then scrolls to `id`; the
        section to scroll to is returned. */
    method HandleLinkClick(id: string) returns (scrollTarget: string)
      modifies this
      ensures !isOpen && scrollTarget == id
    {
      isOpen := false;
      scrollTarget := id;
    }
  }

  /** Every navigation link leads to a section of the page, and no two links
      lead to the same one. */
  lemma NavLinksTargetSections()
    ensures forall k :: 0 <= k < |NavLinkIds| ==> NavLinkIds[k] in SectionIds
    ensures forall i, j :: 0 <= i < j < |NavLinkIds| ==> NavLinkIds[i] != NavLinkIds[j]
  {
    assert NavLinkIds == SectionIds[1..];
    assert NavLinkIds[0][0] == 'a' && NavLinkIds[1][0] == 'e' && NavLinkIds[2][0] == 's';
    assert NavLinkIds[3][0] == 'p' && NavLinkIds[4][0] == 'f' && NavLinkIds[5][0] == 'b';
  }
}
