/**
 * `useHeadlessSelect`: a controller object whose four state cells are
 * updated in place by the transitions and the key handler, plus the
 * attribute records its prop getters return.
 */
module HeadlessSelect {
  import opened Wrappers
  import opened Text
  import opened Filtering
  import opened SelectMachine

  /** `getTriggerProps()` without its `onClick` handler, which is `Toggle`. */
  datatype TriggerProps = TriggerProps(ariaHasPopup: string, ariaExpanded: bool)

  /** `getInputProps()` without its handlers: `onChange` is `SetSearch`, `onKeyDown` is `OnKeyDown`. */
  datatype InputProps = InputProps(value: string, ariaAutocomplete: string)

  /** `getListboxProps()`. */
  datatype ListboxProps = ListboxProps(role: string)

  /** `getOptionProps(item, index)` without its handlers: `onMouseEnter` is `MouseEnterOption`, `onClick` is `SelectItem`. */
  datatype OptionProps = OptionProps(role: string, key: int, ariaSelected: bool)

  class SelectController<T(==)> {
    var items: seq<T>
    var itemToString: T -> string
    var isOpen: bool
    var search: string
    var selected: Option<T>
    var highlighted: int

    /** The first call of the hook: `items` and the options seed the controller. */
    constructor (items: seq<T>, itemToString: T -> string, initialSelected: Option<T>)
      ensures this.items == items && this.itemToString == itemToString
      ensures Snapshot() == Initial(initialSelected)
    {
      this.items := items;
      this.itemToString := itemToString;
      isOpen := false;
      search := "";
      selected := initialSelected;
      highlighted := -1;
    }

    /** The four state cells as one value. */
    function Snapshot(): State<T>
      reads this
    {
      State(isOpen, search, selected, highlighted)
    }

    /** The derived `filteredItems`, recomputed from the current inputs on every read. */
    function FilteredItems(): (r: seq<T>)
      reads this
      ensures r == Filter(items, itemToString, search)
      ensures |r| <= |items| && IsSubsequence(r, items)
      ensures forall x :: x in r ==> x in items && Matches(x, itemToString, search)
      ensures search == "" ==> r == items
    {
      FilterIsSubsequence(items, itemToString, search);
      FilterEmptySearch(items, itemToString);
      Filter(items, itemToString, search)
    }

    /**
     * A later call of the hook with a new `items` list and `itemToString`:
     * the state cells keep their values (`initialSelectedItem` is read only once).
     */
    method Rerender(newItems: seq<T>, newItemToString: T -> string)
      modifies this
      ensures items == newItems && itemToString == newItemToString
      ensures Snapshot() == old(Snapshot())
    {
      items := newItems;
      itemToString := newItemToString;
    }

    method Open()
      modifies this
      ensures Snapshot() == Opened(old(Snapshot()))
      ensures items == old(items) && itemToString == old(itemToString)
    {
      isOpen := true;
    }

    method Close()
      modifies this
      ensures Snapshot() == Closed(old(Snapshot()))
      ensures items == old(items) && itemToString == old(itemToString)
    {
      isOpen := false;
      highlighted := -1;
    }

    method Toggle()
      modifies this
      ensures Snapshot() == Toggled(old(Snapshot()))
      ensures items == old(items) && itemToString == old(itemToString)
    {
      isOpen := !isOpen;
    }

    method SelectItem(item: T)
      modifies this
      ensures Snapshot() == Committed(old(Snapshot()), Some(item))
      ensures items == old(items) && itemToString == old(itemToString)
    {
      selected := Some(item);
      Close();
    }

    method SetSearch(value: string)
      modifies this
      ensures Snapshot() == WithSearch(old(Snapshot()), value)
      ensures items == old(items) && itemToString == old(itemToString)
      ensures FilteredItems() == Filter(items, itemToString, value)
    {
      search := value;
    }

    /** An option's `onMouseEnter`: `index` is its position in the rendered filtered list. */
    method MouseEnterOption(index: int)
      modifies this
      ensures Snapshot() == Hovered(old(Snapshot()), index)
      ensures items == old(items) && itemToString == old(itemToString)
    {
      highlighted := index;
    }

    /** The key handler attached to the search input; the result is whether `preventDefault` was called. */
    method OnKeyDown(k: Key) returns (preventDefault: bool)
      modifies this
      ensures KeyOutcome(Snapshot(), preventDefault) == KeyDown(old(Snapshot()), old(FilteredItems()), k)
      ensures items == old(items) && itemToString == old(itemToString)
    {
      preventDefault := false;
      if !isOpen {
        return;
      }
      var filtered := FilteredItems();
      match k
      case ArrowDown =>
        preventDefault := true;
        highlighted := Min(highlighted + 1, |filtered| - 1);
      case ArrowUp =>
        preventDefault := true;
        highlighted := Max(highlighted - 1, 0);
      case Enter =>
        if highlighted >= 0 {
          if highlighted < |filtered| {
            SelectItem(filtered[highlighted]);
          } else {
            // `filteredItems[highlightedIndex]` is `undefined` here, and that is what gets selected
            selected := None;
            Close();
          }
        }
      case Escape =>
        Close();
      case Other =>
    }

    function GetTriggerProps(): (p: TriggerProps)
      reads this
      ensures p.ariaExpanded <==> isOpen
      ensures p.ariaHasPopup == "listbox"
    {
      TriggerProps("listbox", isOpen)
    }

    function GetInputProps(): (p: InputProps)
      reads this
      ensures p.value == search
      ensures p.ariaAutocomplete == "list"
    {
      InputProps(search, "list")
    }

    function GetListboxProps(): (p: ListboxProps)
      ensures p.role == "listbox"
    {
      ListboxProps("listbox")
    }

    function GetOptionProps(item: T, index: int): (p: OptionProps)
      reads this
      ensures p.role == "option" && p.key == index
      ensures p.ariaSelected <==> selected == Some(item)
    {
      OptionProps("option", index, selected == Some(item))
    }
  }

  /** Enter on a highlight inside the filtered list commits an item of `items` that passes the filter. */
  lemma EnterCommitsListedItem<T>(s: State<T>, items: seq<T>, itemToString: T -> string)
    requires s.isOpen && 0 <= s.highlighted < |Filter(items, itemToString, s.search)|
    ensures var r := KeyDown(s, Filter(items, itemToString, s.search), Enter).next;
      && r.selected.Some? && r.selected.value in items
      && Matches(r.selected.value, itemToString, s.search)
      && !r.isOpen && r.highlighted == -1
  {
    var filtered := Filter(items, itemToString, s.search);
    assert filtered[s.highlighted] in filtered;
  }
}
