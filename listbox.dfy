/**
 * The list box of the menu: an ordered list of items built from the registry's
 * names, a cursor `selected`, and the key handler that moves the cursor with
 * `j` / `k` (wrapping at both ends) and publishes a "select" event on Enter.
 */
module ListBox {
  import opened Wrappers
  import Registry

  /** The key codes the handler tells apart; `Other` stands for every other key code. */
  datatype Key = Char(c: char) | Enter | Other

  /** A user event published to the host: its name and its string payload. */
  datatype Event = Event(name: string, data: string)

  /** The name of the event the list box publishes on Enter. */
  const SelectEvent := "select"

  /** One entry of the list: its position at construction time and its label. */
  datatype ListItem = ListItem(id: nat, text: string)

  /** The items for `names`, numbered from `first` on, as `enumerate().map(ListItem::new)` builds them. */
  function ItemsFrom(names: seq<string>, first: nat): (items: seq<ListItem>)
    ensures |items| == |names|
    ensures forall i :: 0 <= i < |items| ==> items[i].id == first + i && items[i].text == names[i]
  {
    if names == [] then []
    else [ListItem(first, names[0])] + ItemsFrom(names[1..], first + 1)
  }

  // ---------------------------------------------------------------------------
  // Cursor arithmetic

  /** The cursor after `j` on a list of `len` items; on an empty list it stays put. */
  function Down(selected: nat, len: nat): (r: nat)
    ensures len == 0 ==> r == selected
    ensures selected < len ==> r < len
  {
    if len == 0 then selected
    else if selected < len - 1 then selected + 1
    else 0
  }

  /** The cursor after `k` on a list of `len` items; on an empty list it stays put. */
  function Up(selected: nat, len: nat): (r: nat)
    ensures len == 0 ==> r == selected
    ensures selected < len ==> r < len
  {
    if len == 0 then selected
    else if selected > 0 then selected - 1
    else len - 1
  }

  /** Euclidean division is unique: any quotient and in-range remainder are the ones `/` and `%` give. */
  lemma ModUnique(x: int, m: int, q: int, r: int)
    requires 0 < m && 0 <= r < m && x == q * m + r
    ensures x % m == r
  {
    var q0, r0 := x / m, x % m;
    assert (q - q0) * m == r0 - r;
    MulSign(q - q0, m);
  }

  /** A non-zero multiple of a positive `m` is at least `m` away from 0. */
  lemma {:induction false} MulSign(a: int, m: int)
    requires 0 < m
    ensures a >= 1 ==> a * m >= m
    ensures a <= -1 ==> a * m <= -m
    decreases if a < 0 then -a else a
  {
    if a > 1 {
      MulSign(a - 1, m);
      assert a * m == (a - 1) * m + m;
    } else if a < -1 {
      MulSign(a + 1, m);
      assert a * m == (a + 1) * m - m;
    }
  }

  /** Adding a constant commutes with reduction modulo `m`. */
  lemma ModAdd(x: int, d: int, m: int)
    requires 0 < m
    ensures (x % m + d) % m == (x + d) % m
  {
    var q, r := x / m, x % m;
    var q', r' := (r + d) / m, (r + d) % m;
    assert x + d == q * m + (r + d);
    assert r + d == q' * m + r';
    assert x + d == (q + q') * m + r';
    ModUnique(x + d, m, q + q', r');
  }

  /** `j` on a non-empty list is the successor modulo the length. */
  lemma DownIsSuccMod(selected: nat, len: nat)
    requires selected < len
    ensures Down(selected, len) == (selected + 1) % len
  {
    if selected < len - 1 {
      ModUnique(selected + 1, len, 0, selected + 1);
    } else {
      ModUnique(selected + 1, len, 1, 0);
    }
  }

  /** `k` on a non-empty list is the predecessor modulo the length. */
  lemma UpIsPredMod(selected: nat, len: nat)
    requires selected < len
    ensures Up(selected, len) == (selected - 1) % len
  {
    if selected > 0 {
      ModUnique(selected - 1, len, 0, selected - 1);
    } else {
      ModUnique(selected - 1, len, -1, len - 1);
    }
  }

  /** `k` undoes `j` and `j` undoes `k` on a non-empty list. */
  lemma UpUndoesDown(selected: nat, len: nat)
    requires selected < len
    ensures Up(Down(selected, len), len) == selected
    ensures Down(Up(selected, len), len) == selected
  {
  }

  /** The cursor after `n` presses of `j`. */
  function DownTimes(selected: nat, len: nat, n: nat): nat
  {
    if n == 0 then selected else Down(DownTimes(selected, len, n - 1), len)
  }

  /** The cursor after `n` presses of `k`. */
  function UpTimes(selected: nat, len: nat, n: nat): nat
  {
    if n == 0 then selected else Up(UpTimes(selected, len, n - 1), len)
  }

  /** `n` presses of `j` move the cursor `n` places forward, cyclically. */
  lemma {:induction false} DownTimesIsShift(selected: nat, len: nat, n: nat)
    requires selected < len
    ensures DownTimes(selected, len, n) == (selected + n) % len
  {
    if n == 0 {
      ModUnique(selected, len, 0, selected);
    } else {
      DownTimesIsShift(selected, len, n - 1);
      var prev := DownTimes(selected, len, n - 1);
      DownIsSuccMod(prev, len);
      ModAdd(selected + n - 1, 1, len);
    }
  }

  /** `n` presses of `k` move the cursor `n` places back, cyclically. */
  lemma {:induction false} UpTimesIsShift(selected: nat, len: nat, n: nat)
    requires selected < len
    ensures UpTimes(selected, len, n) == (selected - n) % len
  {
    if n == 0 {
      ModUnique(selected, len, 0, selected);
    } else {
      UpTimesIsShift(selected, len, n - 1);
      var prev := UpTimes(selected, len, n - 1);
      UpIsPredMod(prev, len);
      ModAdd(selected - (n - 1), -1, len);
    }
  }

  /** As many presses of `j`, or of `k`, as there are items bring the cursor back where it was. */
  lemma FullCycle(selected: nat, len: nat)
    requires selected < len
    ensures DownTimes(selected, len, len) == selected
    ensures UpTimes(selected, len, len) == selected
  {
    DownTimesIsShift(selected, len, len);
    UpTimesIsShift(selected, len, len);
    ModUnique(selected + len, len, 1, selected);
    ModUnique(selected - len, len, -1, selected);
  }

  // ---------------------------------------------------------------------------
  // The list box state and its key handler

  /** `ListBoxState` together with the `on_key` handler of the `ListBox` component. */
  class ListBoxState {
    var items: seq<ListItem>
    var selected: nat

    /** The cursor names an existing item (or is 0 on an empty list), and every id is its index. */
    ghost predicate Valid()
      reads this
    {
      && (|items| == 0 ==> selected == 0)
      && (|items| > 0 ==> selected < |items|)
      && forall i :: 0 <= i < |items| ==> items[i].id == i
    }

    /**
     * `ListBoxState::new`: one item per registered name, item `i` with id `i`,
     * every name exactly once, and the cursor on the first item.
     */
    constructor (registry: Registry.HandlerRegistry)
      ensures Valid()
      ensures selected == 0
      ensures |items| == |registry.entries|
      ensures forall i :: 0 <= i < |items| ==> items[i].text in registry.entries
      ensures forall n :: n in registry.entries ==> exists i :: 0 <= i < |items| && items[i].text == n
      ensures forall i, j :: 0 <= i < j < |items| ==> items[i].text != items[j].text
    {
      var names := registry.Names();
      var built := ItemsFrom(names, 0);
      forall n | n in registry.entries
        ensures exists i :: 0 <= i < |built| && built[i].text == n
      {
        var i :| 0 <= i < |names| && names[i] == n;
        assert built[i].text == n;
      }
      items := built;
      selected := 0;
    }

    /**
     * `on_key`: `j` moves the cursor down and `k` up, each wrapping at the ends;
     * Enter publishes "select" with the label of the selected item and changes
     * nothing; any other key does nothing. The items never change. On an empty list
     * every key is a no-op that publishes nothing.
     */
    method OnKey(key: Key) returns (ev: Option<Event>)
      requires Valid()
      modifies this`selected
      ensures Valid()
      ensures items == old(items)
      ensures key == Char('j') ==> selected == Down(old(selected), |items|)
      ensures key == Char('k') ==> selected == Up(old(selected), |items|)
      ensures key != Char('j') && key != Char('k') ==> selected == old(selected)
      ensures key == Enter && |items| > 0 ==> ev == Some(Event(SelectEvent, items[selected].text))
      ensures !(key == Enter && |items| > 0) ==> ev == None
      ensures |items| == 0 ==> selected == old(selected) && ev == None
    {
      ev := None;
      var len := |items|;
      match key
      case Char(c) =>
        if c == 'j' {
          selected := Down(selected, len);
        } else if c == 'k' {
          selected := Up(selected, len);
        }
      case Enter =>
        if len > 0 {
          ev := Some(Event(SelectEvent, items[selected].text));
        }
      case Other =>
    }
  }

  // ---------------------------------------------------------------------------
  // The handler as written, with `usize` subtraction checked

  /** What one key press does in the original handler. */
  datatype Reaction = Panic | Cursor(selected: nat) | Publish(event: Event)

  /**
   * The original `on_key`, arm by arm: the guards of the `j` and `k` arms compute
   * `items.len() - 1`, which overflows (and panics) on an empty list, and Enter
   * panics in `expect` when the cursor is past the end.
   */
  function OnKeyAsWritten(items: seq<ListItem>, selected: nat, key: Key): (r: Reaction)
    ensures r == Panic <==>
      || (|items| == 0 && (key == Char('j') || (key == Char('k') && selected == 0)))
      || (key == Enter && selected >= |items|)
    ensures r.Publish? ==> key == Enter && selected < |items| && r.event == Event(SelectEvent, items[selected].text)
    ensures key == Enter && selected < |items| ==> r == Publish(Event(SelectEvent, items[selected].text))
    ensures key == Char('j') && selected < |items| ==> r == Cursor(Down(selected, |items|))
    ensures key == Char('k') && selected < |items| ==> r == Cursor(Up(selected, |items|))
    ensures r.Cursor? && selected < |items| ==> r.selected < |items|
    ensures r.Cursor? && key != Char('j') && key != Char('k') ==> r.selected == selected
  {
    match key
    case Char(c) =>
      if c == 'j' then
        if |items| == 0 then Panic
        else if selected < |items| - 1 then Cursor(selected + 1)
        else Cursor(0)
      else if c == 'k' then
        if selected > 0 then Cursor(selected - 1)
        else if |items| == 0 then Panic
        else Cursor(|items| - 1)
      else Cursor(selected)
    case Enter =>
      if selected < |items| then Publish(Event(SelectEvent, items[selected].text)) else Panic
    case Other => Cursor(selected)
  }

  /** On the empty list an empty registry produces, `j`, `k` and Enter all panic in the original. */
  lemma EmptyListPanicsAsWritten()
    ensures OnKeyAsWritten([], 0, Char('j')) == Panic
    ensures OnKeyAsWritten([], 0, Char('k')) == Panic
    ensures OnKeyAsWritten([], 0, Enter) == Panic
  {
  }

  /** On a non-empty list with the cursor in range, the original agrees with `Down`, `Up` and the published event. */
  lemma AsWrittenAgreesOnNonEmpty(items: seq<ListItem>, selected: nat, key: Key)
    requires selected < |items|
    ensures OnKeyAsWritten(items, selected, key) ==
      if key == Char('j') then Cursor(Down(selected, |items|))
      else if key == Char('k') then Cursor(Up(selected, |items|))
      else if key == Enter then Publish(Event(SelectEvent, items[selected].text))
      else Cursor(selected)
  {
  }
}
