/**
 * The select controller's four state cells and its transitions, as pure
 * functions of the current state.  `HeadlessSelect.SelectController`
 * performs these steps on its fields.
 */
module SelectMachine {
  import opened Wrappers

  /** `e.key` as far as the key handler distinguishes it. */
  datatype Key = ArrowDown | ArrowUp | Enter | Escape | Other

  /** `isOpen`, `search`, `selectedItem` and `highlightedIndex`; -1 means no highlight. */
  datatype State<T> = State(isOpen: bool, search: string, selected: Option<T>, highlighted: int)

  /** What one key press does: the next state and whether `preventDefault` was called. */
  datatype KeyOutcome<T> = KeyOutcome(next: State<T>, preventDefault: bool)

  function Min(a: int, b: int): int { if a <= b then a else b }

  function Max(a: int, b: int): int { if a >= b then a else b }

  /** The state before the first event: closed, empty search, no highlight. */
  function Initial<T>(initialSelected: Option<T>): (s: State<T>)
    ensures !s.isOpen && s.search == "" && s.highlighted == -1
    ensures s.selected == initialSelected
  {
    State(false, "", initialSelected, -1)
  }

  /** The highlight is absent or indexes the current filtered list. */
  ghost predicate HighlightInRange<T>(s: State<T>, count: nat) {
    s.highlighted == -1 || 0 <= s.highlighted < count
  }

  /** A closed list has no highlight. */
  ghost predicate ClosedUnhighlighted<T>(s: State<T>) {
    !s.isOpen ==> s.highlighted == -1
  }

  /** `open`: only `isOpen` changes. */
  function Opened<T>(s: State<T>): (r: State<T>)
    ensures r.isOpen
    ensures r.search == s.search && r.selected == s.selected && r.highlighted == s.highlighted
  {
    s.(isOpen := true)
  }

  /** `close`: closes the list and drops the highlight; search and selection stay. */
  function Closed<T>(s: State<T>): (r: State<T>)
    ensures !r.isOpen && r.highlighted == -1
    ensures ClosedUnhighlighted(r) && HighlightInRange(r, 0)
    ensures r.search == s.search && r.selected == s.selected
  {
    s.(isOpen := false, highlighted := -1)
  }

  /** `toggle`: flips `isOpen` and nothing else, not even the highlight. */
  function Toggled<T>(s: State<T>): (r: State<T>)
    ensures r.isOpen == !s.isOpen
    ensures r.search == s.search && r.selected == s.selected && r.highlighted == s.highlighted
  {
    s.(isOpen := !s.isOpen)
  }

  /**
   * `selectItem(x)`: records `x` and then closes.  `item` is `None` when the
   * argument is JavaScript's `undefined` (an out-of-range read of the list).
   */
  function Committed<T>(s: State<T>, item: Option<T>): (r: State<T>)
    ensures r.selected == item
    ensures !r.isOpen && r.highlighted == -1 && r.search == s.search
  {
    Closed(s.(selected := item))
  }

  /** `setSearch(v)`: the search text changes; the highlight is not re-clamped. */
  function WithSearch<T>(s: State<T>, v: string): (r: State<T>)
    ensures r.search == v
    ensures r.isOpen == s.isOpen && r.selected == s.selected && r.highlighted == s.highlighted
  {
    s.(search := v)
  }

  /** An option's `onMouseEnter`: the given index becomes the highlight, unchecked. */
  function Hovered<T>(s: State<T>, index: int): (r: State<T>)
    ensures r.highlighted == index
    ensures r.isOpen == s.isOpen && r.search == s.search && r.selected == s.selected
  {
    s.(highlighted := index)
  }

  /** ArrowDown's new index: one further, but never past the last filtered item. */
  function ArrowDownIndex(i: int, count: nat): (r: int)
    ensures r <= count - 1
    ensures i < count - 1 ==> r == i + 1
    ensures i >= count - 1 ==> r == count - 1
    ensures count == 0 && i >= -2 ==> r == -1
    ensures 0 < count && -1 <= i ==> 0 <= r < count
  {
    Min(i + 1, count - 1)
  }

  /** ArrowUp's new index: one back, but never below 0, whatever the list's length. */
  function ArrowUpIndex(i: int): (r: int)
    ensures r >= 0
    ensures i >= 1 ==> r == i - 1
    ensures i <= 1 ==> r == 0
  {
    Max(i - 1, 0)
  }

  /**
   * `onKeyDown` on the state `s` while `filtered` is the current filtered
   * list.  An Enter whose highlight lies beyond the list commits `None`,
   * which is what `filteredItems[highlightedIndex]` yields there.
   */
  function KeyDown<T>(s: State<T>, filtered: seq<T>, k: Key): (r: KeyOutcome<T>)
    ensures !s.isOpen ==> r.next == s
    ensures r.preventDefault <==> s.isOpen && (k == ArrowDown || k == ArrowUp)
    ensures k == Other ==> r.next == s
    ensures s.isOpen && k == Escape ==> r.next == Closed(s)
    ensures s.isOpen && (k == ArrowDown || k == ArrowUp) ==>
      r.next.isOpen && r.next.search == s.search && r.next.selected == s.selected
    ensures s.isOpen && k == ArrowDown ==> r.next.highlighted == ArrowDownIndex(s.highlighted, |filtered|)
    ensures s.isOpen && k == ArrowUp ==> r.next.highlighted == ArrowUpIndex(s.highlighted)
    ensures s.isOpen && k == Enter && s.highlighted < 0 ==> r.next == s
    ensures s.isOpen && k == Enter && 0 <= s.highlighted < |filtered| ==>
      r.next == Committed(s, Some(filtered[s.highlighted]))
    ensures s.isOpen && k == Enter && s.highlighted >= |filtered| ==> r.next == Committed(s, None)
  {
    if !s.isOpen then KeyOutcome(s, false)
    else
      match k
      case ArrowDown => KeyOutcome(s.(highlighted := ArrowDownIndex(s.highlighted, |filtered|)), true)
      case ArrowUp => KeyOutcome(s.(highlighted := ArrowUpIndex(s.highlighted)), true)
      case Enter =>
        if s.highlighted < 0 then KeyOutcome(s, false)
        else if s.highlighted < |filtered| then KeyOutcome(Committed(s, Some(filtered[s.highlighted])), false)
        else KeyOutcome(Committed(s, None), false)
      case Escape => KeyOutcome(Closed(s), false)
      case Other => KeyOutcome(s, false)
  }

  /** A run of key presses against a fixed filtered list (keys never change the search). */
  function Run<T>(s: State<T>, filtered: seq<T>, keys: seq<Key>): State<T>
    decreases |keys|
  {
    if keys == [] then s else Run(KeyDown(s, filtered, keys[0]).next, filtered, keys[1..])
  }

  function Repeat(k: Key, n: nat): (r: seq<Key>)
    ensures |r| == n && forall i :: 0 <= i < n ==> r[i] == k
  {
    if n == 0 then [] else [k] + Repeat(k, n - 1)
  }

  /** Toggling twice restores the state exactly. */
  lemma ToggleTwice<T>(s: State<T>)
    ensures Toggled(Toggled(s)) == s
  {
  }

  /** Unlike `close`, toggling an open list shut keeps its highlight, breaking `ClosedUnhighlighted`. */
  lemma ToggleClosedKeepsHighlight<T>(s: State<T>)
    requires s.isOpen && s.highlighted != -1
    ensures !Toggled(s).isOpen && !ClosedUnhighlighted(Toggled(s))
  {
  }

  /** Every key press keeps `ClosedUnhighlighted`. */
  lemma KeyDownKeepsClosedUnhighlighted<T>(s: State<T>, filtered: seq<T>, k: Key)
    requires ClosedUnhighlighted(s)
    ensures ClosedUnhighlighted(KeyDown(s, filtered, k).next)
  {
  }

  /** Over a non-empty filtered list every key press keeps `HighlightInRange`. */
  lemma KeyDownKeepsHighlightInRange<T>(s: State<T>, filtered: seq<T>, k: Key)
    requires |filtered| > 0 && HighlightInRange(s, |filtered|)
    ensures HighlightInRange(KeyDown(s, filtered, k).next, |filtered|)
  {
  }

  /** ArrowUp on an open, empty list from no highlight (or 0 or 1) highlights index 0, which does not exist. */
  lemma ArrowUpOnEmptyList<T>(s: State<T>)
    requires s.isOpen && s.highlighted <= 1
    ensures KeyDown(s, [], ArrowUp).next.highlighted == 0
    ensures !HighlightInRange(KeyDown(s, [], ArrowUp).next, 0)
  {
  }

  /** ArrowUp clamps only from below: from more than one past the end, one press still leaves the highlight out of range. */
  lemma ArrowUpKeepsStaleHighlight<T>(s: State<T>, filtered: seq<T>)
    requires s.isOpen && s.highlighted > |filtered|
    ensures KeyDown(s, filtered, ArrowUp).next.highlighted == s.highlighted - 1
    ensures !HighlightInRange(KeyDown(s, filtered, ArrowUp).next, |filtered|)
  {
  }

  /** Any run of keys, over any filtered list, keeps `ClosedUnhighlighted`. */
  lemma {:induction false} RunKeepsClosedUnhighlighted<T>(s: State<T>, filtered: seq<T>, keys: seq<Key>)
    requires ClosedUnhighlighted(s)
    ensures ClosedUnhighlighted(Run(s, filtered, keys))
    decreases |keys|
  {
    if keys != [] {
      KeyDownKeepsClosedUnhighlighted(s, filtered, keys[0]);
      RunKeepsClosedUnhighlighted(KeyDown(s, filtered, keys[0]).next, filtered, keys[1..]);
    }
  }

  /** Over a non-empty filtered list, any run of keys keeps `HighlightInRange`. */
  lemma {:induction false} RunKeepsHighlightInRange<T>(s: State<T>, filtered: seq<T>, keys: seq<Key>)
    requires |filtered| > 0 && HighlightInRange(s, |filtered|)
    ensures HighlightInRange(Run(s, filtered, keys), |filtered|)
    decreases |keys|
  {
    if keys != [] {
      KeyDownKeepsHighlightInRange(s, filtered, keys[0]);
      RunKeepsHighlightInRange(KeyDown(s, filtered, keys[0]).next, filtered, keys[1..]);
    }
  }

  /** A highlight exactly one past the end comes back into range with one ArrowUp. */
  lemma ArrowUpRecoversFromEnd<T>(s: State<T>, filtered: seq<T>)
    requires s.isOpen && |filtered| > 0 && s.highlighted == |filtered|
    ensures KeyDown(s, filtered, ArrowUp).next.highlighted == |filtered| - 1
    ensures HighlightInRange(KeyDown(s, filtered, ArrowUp).next, |filtered|)
  {
  }

  /** `n` ArrowDown presses on an open list advance the highlight by `n`, clamped at the last item. */
  lemma {:induction false} ArrowDownPresses<T>(s: State<T>, filtered: seq<T>, n: nat)
    requires s.isOpen
    ensures Run(s, filtered, Repeat(ArrowDown, n))
         == s.(highlighted := if n == 0 then s.highlighted else Min(s.highlighted + n, |filtered| - 1))
    decreases n
  {
    if n > 0 {
      var keys := Repeat(ArrowDown, n);
      assert keys[0] == ArrowDown && keys[1..] == Repeat(ArrowDown, n - 1);
      ArrowDownPresses(KeyDown(s, filtered, ArrowDown).next, filtered, n - 1);
    }
  }

  /** From no highlight, `n` ArrowDown presses highlight index `min(n, |filtered|) - 1`. */
  lemma ArrowDownPressesFromNone<T>(s: State<T>, filtered: seq<T>, n: nat)
    requires s.isOpen && s.highlighted == -1
    ensures Run(s, filtered, Repeat(ArrowDown, n)).highlighted == Min(n, |filtered|) - 1
  {
    ArrowDownPresses(s, filtered, n);
  }

  /** `n` ArrowUp presses on an open list move the highlight back by `n`, stopping at 0. */
  lemma {:induction false} ArrowUpPresses<T>(s: State<T>, filtered: seq<T>, n: nat)
    requires s.isOpen
    ensures Run(s, filtered, Repeat(ArrowUp, n))
         == s.(highlighted := if n == 0 then s.highlighted else Max(s.highlighted - n, 0))
    decreases n
  {
    if n > 0 {
      var keys := Repeat(ArrowUp, n);
      assert keys[0] == ArrowUp && keys[1..] == Repeat(ArrowUp, n - 1);
      ArrowUpPresses(KeyDown(s, filtered, ArrowUp).next, filtered, n - 1);
    }
  }
}
