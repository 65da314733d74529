/**
 * The dropdown "active" flags of `SiteManager` (script.js) as values: the
 * mobile click accordion, `toggleDropdown`, and the outside-click rule.
 * Dropdown `k` is the k-th element of the page's `.dropdown` list.
 */
module Dropdowns {

  /** No two dropdowns are open at once. */
  predicate AtMostOneActive(flags: seq<bool>)
  {
    forall i, j :: 0 <= i < |flags| && 0 <= j < |flags| && flags[i] && flags[j] ==> i == j
  }

  /** Dropdown `k` is open and every other one is closed. */
  predicate OnlyActive(flags: seq<bool>, k: int)
  {
    && 0 <= k < |flags|
    && forall j :: 0 <= j < |flags| ==> (flags[j] <==> j == k)
  }

  /**
   * The mobile click handler on the toggle of dropdown `k`: every other
   * dropdown is closed and `k` flips, so at most one stays open.
   */
  function AccordionClick(flags: seq<bool>, k: nat): (r: seq<bool>)
    requires k < |flags|
    ensures |r| == |flags|
    ensures r[k] == !flags[k]
    ensures forall j :: 0 <= j < |r| && j != k ==> !r[j]
    ensures AtMostOneActive(r)
  {
    seq(|flags|, j requires 0 <= j < |flags| => j == k && !flags[k])
  }

  /**
   * `toggleDropdown(k)`: an open dropdown is hidden and nothing else
   * changes; a closed one is shown after every other open one is hidden.
   */
  function ToggleDropdown(flags: seq<bool>, k: nat): (r: seq<bool>)
    requires k < |flags|
    ensures |r| == |flags|
    ensures r[k] == !flags[k]
    ensures !flags[k] ==> OnlyActive(r, k)
    ensures flags[k] ==> forall j :: 0 <= j < |r| && j != k ==> r[j] == flags[j]
    ensures AtMostOneActive(flags) ==> AtMostOneActive(r)
  {
    if flags[k] then flags[k := false] else AccordionClick(flags, k)
  }

  /**
   * The mobile outside-click handler: `inside` holds the dropdowns that
   * contain the click target. Exactly the others are closed.
   */
  function CloseOutside(flags: seq<bool>, inside: set<nat>): (r: seq<bool>)
    ensures |r| == |flags|
    ensures forall j :: 0 <= j < |r| && j !in inside ==> !r[j]
    ensures forall j :: 0 <= j < |r| && j in inside ==> r[j] == flags[j]
    ensures AtMostOneActive(flags) ==> AtMostOneActive(r)
  {
    seq(|flags|, j requires 0 <= j < |flags| => flags[j] && j in inside)
  }

  /** Handling the same outside click twice is the same as once. */
  lemma CloseOutsideIdempotent(flags: seq<bool>, inside: set<nat>)
    ensures CloseOutside(CloseOutside(flags, inside), inside) == CloseOutside(flags, inside)
  {
  }

  /** Opening dropdown `a` and then dropdown `b` leaves exactly `b` open. */
  lemma OpenThenOpenOther(flags: seq<bool>, a: nat, b: nat)
    requires a < |flags| && b < |flags| && a != b
    ensures OnlyActive(AccordionClick(AccordionClick(flags, a), b), b)
  {
  }

  /**
   * Once at most one dropdown is open, `toggleDropdown` agrees with the
   * mobile click handler.
   */
  lemma ToggleMatchesAccordion(flags: seq<bool>, k: nat)
    requires k < |flags| && AtMostOneActive(flags)
    ensures ToggleDropdown(flags, k) == AccordionClick(flags, k)
  {
  }

  /** The flags after a series of mobile clicks, on dropdowns `clicks[0]`, `clicks[1]`, ... */
  function Clicks(flags: seq<bool>, clicks: seq<nat>): (r: seq<bool>)
    requires forall i :: 0 <= i < |clicks| ==> clicks[i] < |flags|
    ensures |r| == |flags|
    decreases |clicks|
  {
    if clicks == [] then flags else Clicks(AccordionClick(flags, clicks[0]), clicks[1..])
  }

  /**
   * Any series of mobile clicks keeps at most one dropdown open, whatever
   * the flags were before, as soon as there has been one click; the last
   * click decides which one.
   */
  lemma {:induction false} ClicksKeepAtMostOne(flags: seq<bool>, clicks: seq<nat>)
    requires forall i :: 0 <= i < |clicks| ==> clicks[i] < |flags|
    requires clicks != [] || AtMostOneActive(flags)
    ensures AtMostOneActive(Clicks(flags, clicks))
    ensures clicks != [] ==>
              forall j :: 0 <= j < |flags| && j != clicks[|clicks| - 1] ==> !Clicks(flags, clicks)[j]
    decreases |clicks|
  {
    if clicks != [] {
      ClicksKeepAtMostOne(AccordionClick(flags, clicks[0]), clicks[1..]);
      if |clicks| > 1 {
        assert clicks[1..][|clicks[1..]| - 1] == clicks[|clicks| - 1];
      }
    }
  }
}
