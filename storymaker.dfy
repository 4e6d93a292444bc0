/** The `BookViewer` of the storymaker page: two pages per spread and the
    previous and next buttons. */
module Storymaker {

  /** The four placeholder pages. */
  const Pages: seq<string> := [
    "https://via.placeholder.com/200x300?text=Page+1",
    "https://via.placeholder.com/200x300?text=Page+2",
    "https://via.placeholder.com/200x300?text=Page+3",
    "https://via.placeholder.com/200x300?text=Page+4"
  ]

  /** `pages.length / 2 - 1` is a division of numbers, not of integers:
      `s < pages.length / 2 - 1` is `2 * s < pages.length - 2`. */
  predicate BeforeLast(s: int) {
    2 * s < |Pages| - 2
  }

  /** The spreads whose two pages exist. */
  predicate InBounds(s: int) {
    0 <= s && 2 * s + 1 < |Pages|
  }

  /** `handleNext` on spread `s`. */
  function NextSpread(s: int): (r: int)
    ensures BeforeLast(s) ==> r == s + 1
    ensures !BeforeLast(s) ==> r == s
    ensures InBounds(s) ==> InBounds(r)
  {
    if BeforeLast(s) then s + 1 else s
  }

  /** `handlePrevious` on spread `s`. */
  function PreviousSpread(s: int): (r: int)
    ensures s > 0 ==> r == s - 1
    ensures s <= 0 ==> r == s
    ensures InBounds(s) ==> InBounds(r)
  {
    if s > 0 then s - 1 else s
  }

  /** `disabled={currentSpread === 0}`. */
  predicate PreviousDisabled(s: int) {
    s == 0
  }

  /** `disabled={currentSpread === pages.length / 2 - 1}`. */
  predicate NextDisabled(s: int) {
    2 * s == |Pages| - 2
  }

  /** On every spread the viewer can show, each button is disabled exactly
      when its handler would do nothing. */
  lemma DisabledMatchesGuards(s: int)
    requires InBounds(s)
    ensures PreviousDisabled(s) <==> PreviousSpread(s) == s
    ensures NextDisabled(s) <==> NextSpread(s) == s
  {
  }

  /** The spread reached from the first one by `k` presses of next. */
  function NextPresses(k: nat): int {
    if k == 0 then 0 else NextSpread(NextPresses(k - 1))
  }

  /** Pressing next walks through the spreads one at a time and then stays on
      the last one. */
  lemma {:induction false} NextPressesReach(k: nat)
    ensures NextPresses(k) == if k < |Pages| / 2 then k else |Pages| / 2 - 1
  {
    if k > 0 {
      NextPressesReach(k - 1);
    }
  }

  class BookViewer {
    var currentSpread: int

    predicate Valid()
      reads this
    {
      InBounds(currentSpread)
    }

    /** `useState(0)`. */
    constructor()
      ensures currentSpread == 0 && Valid()
    {
      currentSpread := 0;
    }

    method HandleNext()
      requires Valid()
      modifies this
      ensures currentSpread == NextSpread(old(currentSpread)) && Valid()
    {
      if 2 * currentSpread < |Pages| - 2 {
        currentSpread := currentSpread + 1;
      }
    }

    method HandlePrevious()
      requires Valid()
      modifies this
      ensures currentSpread == PreviousSpread(old(currentSpread)) && Valid()
    {
      if currentSpread > 0 {
        currentSpread := currentSpread - 1;
      }
    }

    /** The two pages shown: `pages[currentSpread * 2]` and the one after it. */
    method Spread() returns (left: string, right: string)
      requires Valid()
      ensures left == Pages[2 * currentSpread] && right == Pages[2 * currentSpread + 1]
    {
      left, right := Pages[currentSpread * 2], Pages[currentSpread * 2 + 1];
    }
  }
}
