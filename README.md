# Terminal menu: handler registry and list navigation

A Dafny model of the core of a small terminal menu written in Rust with the
anathema TUI framework. Named zero-argument handlers are registered in a
function registry. A list box is built from the registry's names, and the user
moves its cursor with `j` / `k` and confirms with Enter. The application then
looks the confirmed name up and calls its handler.

Modules:

- `Wrappers`: `Option`.
- `Registry`: the registry as a class `HandlerRegistry` over a `map<string, Handler>`.
  It has `Insert` (`insert_into_registry`), `GetFun` (`get_fun`) and `Names` (`names`).
  A handler is represented by the string it returns. The object keeps a ghost
  history of its insertions. `Registered` folds such a history into a map, and
  `LastWriterWins` proves that a lookup yields the most recent registration.
- `ListBox`: the items (`ListItem`, built by `ItemsFrom` as `enumerate().map(ListItem::new)`
  does at src/menu.rs:99, with `ListItem` and `ListItem::new` at src/menu.rs:114-127) and the class `ListBoxState`. Its constructor is
  `ListBoxState::new` and its `OnKey` method is `ListBox::on_key`. The pure cursor
  functions `Down` and `Up` specify the cursor moves, with lemmas about wrap-around,
  inverses and full cycles. `OnKeyAsWritten` models the original handler with
  checked `usize` subtraction (see Findings).
- `Application`: `OnEvent`, the lookup-and-call step of `Application::on_event`.
- `Scenarios`: whole runs with the two handlers `src/main.rs` registers.

Decisions:

- `get_fun` panics (`unwrap`) on a name that was never registered. `GetFun` returns
  `None` there, and `OnEvent` turns that into `NotFound(name)` instead of a crash.
- `names()` follows the hash map's iteration order, which is unspecified. `Names`
  picks the keys in an arbitrary order. Its contract fixes only the set of names,
  that there are no duplicates, and the length.
- On an empty list the model makes `j`, `k` and Enter no-ops. The original
  underflows or panics there (see Findings).
- The code always wraps at both ends. Its comment at src/menu.rs:145 notes that
  dropping the wrap arms would make the cursor stop at the ends instead; that
  non-wrapping variant is not modelled.

## Model

| member | source | states |
|---|---|---|
| Registry.LastWriterWins | src/menu.rs:21-27 | after any sequence of inserts, a name is present exactly when it was inserted at least once, and it maps to the handler of its most recent insert (last writer wins) |
| Registry.LastForExists | src/menu.rs:21-23 | every name that was inserted has a most recent insert, so the lookup result is always determined |
| Registry.HandlerRegistry.constructor | src/menu.rs:15-17 | the registry starts empty, with no insertions recorded |
| Registry.HandlerRegistry.Insert | src/menu.rs:21-23 | the entry for `name` becomes `f`, overwriting an earlier one; the key set gains `name`; every other name keeps its presence and its handler |
| Registry.HandlerRegistry.GetFun | src/menu.rs:25-27 | the lookup succeeds exactly when the name was ever inserted, and then yields its last inserted handler; a miss, where the original panics, is `None` |
| Registry.HandlerRegistry.Names | src/menu.rs:32-34 | a fresh sequence containing exactly the registered names, each once, as long as the registry; order unspecified |
| ListBox.ItemsFrom | src/menu.rs:99 | one item per name, in order: item `i` has id `first + i` and text `names[i]` |
| ListBox.ListBoxState.constructor | src/menu.rs:93-105 | the list has one item per registered name, every registered name appears exactly once, item `i` has id `i`, and the cursor is 0 |
| ListBox.Down | src/menu.rs:148-149 | `j` keeps an in-range cursor in range and is a no-op on an empty list |
| ListBox.Up | src/menu.rs:150-151 | `k` keeps an in-range cursor in range and is a no-op on an empty list |
| ListBox.DownIsSuccMod | src/menu.rs:148-149 | on a non-empty list `j` moves the cursor to `(selected + 1) mod len`: forward by one, and wrapping to 0 after the last item |
| ListBox.UpIsPredMod | src/menu.rs:150-151 | on a non-empty list `k` moves the cursor to `(selected - 1) mod len`: back by one, and wrapping to the last item from 0 |
| ListBox.UpUndoesDown | src/menu.rs:148-151 | on a non-empty list `k` undoes `j` and `j` undoes `k` |
| ListBox.DownTimesIsShift | src/menu.rs:148-149 | `n` presses of `j` move the cursor `n` places forward, modulo the length |
| ListBox.UpTimesIsShift | src/menu.rs:150-151 | `n` presses of `k` move the cursor `n` places back, modulo the length |
| ListBox.FullCycle | src/menu.rs:145-151 | `len` presses of `j`, or of `k`, return the cursor to where it started |
| ListBox.ListBoxState.OnKey | src/menu.rs:136-166 | `j`/`k` set the cursor to `Down`/`Up` of the old one; Enter publishes exactly one "select" event carrying the selected item's text and changes nothing; any other key changes nothing and publishes nothing; the items never change; the cursor invariant is kept; on an empty list every key is a no-op |
| ListBox.OnKeyAsWritten | src/menu.rs:146-165 | the original handler arm by arm: it panics exactly where `len() - 1` underflows (`j` on an empty list, `k` at 0 on an empty list) or where `get` misses on Enter; otherwise Enter on an in-range cursor publishes "select" with the selected text and nothing else publishes, `j`/`k` on an in-range cursor move it to `Down`/`Up` of the old one, and other keys leave the cursor alone |
| ListBox.EmptyListPanicsAsWritten | src/menu.rs:146-158 | in the handler as written, `j`, `k` and Enter on an empty list all panic |
| ListBox.AsWrittenAgreesOnNonEmpty | src/menu.rs:147-165 | on a non-empty list with the cursor in range, the handler as written does exactly what `OnKey` does |
| Application.OnEvent | src/menu.rs:79-82 | events other than "function_select" are ignored; for that event the payload's last registered handler is called and `(name, result)` is surfaced; a never-registered name gives `NotFound` |
| Scenarios.SelectFirstEntry | src/main.rs:11-25 | with the two load-time registrations, Enter on the first list item and dispatch yields a registered name together with that name's own handler output |
| Scenarios.PressOnEmptyMenu | src/menu.rs:146-165 | with an empty registry the list is empty, and any key publishes nothing and leaves the cursor at 0 |
| Scenarios.WrapAroundOnThree | src/menu.rs:148-151 | on three items, `k` from 0 reaches the last item and `j` from the last item wraps to 0 |

## Left out

- `show_menu` is left out. It sets up the terminal backend, raw mode and the alternate screen, then loads the `.aml` templates and runs the framework runtime; all of that is I/O.
- `Application::on_mount` is left out. It only moves the framework's focus.
- The thread-local `RefCell` and its borrow discipline are left out. This is a Rust aliasing mechanism, so the registry is one explicit object instead.
- The `eprintln!` log line is left out. `OnEvent` returns the `(name, result)` pair that the line prints.
- The routing from the published "select" event to the handled "function_select" event is assumed. It is presumably declared in the `.aml` templates, which are not part of this model, and `Scenarios.SelectFirstEntry` performs it explicitly.
- Hash map iteration order is not modelled. `Names` leaves the order open.
- Handler identity as function pointers is not modelled. A handler is the string it returns.
- `src/main.rs` is not modelled: the entry point, the `#[ctor]` load-time registration, and its `get_registry` call, which `src/menu.rs` does not define. Its two handlers appear only as fixtures in `Scenarios.SelectFirstEntry`.
- The framework's change tracking through `to_mut()` and `Value<...>` wrappers is not modelled.
- ListBox.OnKeyAsWritten: models overflow-checked (debug build) `usize` subtraction, where the empty-list case panics. It does not model the release-build wrap-around. With wrap-around, `j` on an empty list moves the cursor to 1, `k` moves it to `usize::MAX`, and a later Enter panics in `expect`.

## Findings

| source | as written | input that shows it | evidently intended | confidence | as-written member | corrected member |
|---|---|---|---|---|---|---|
| src/menu.rs:148-158 | the `j` and `k` arms compute `state.items.len() - 1`, which underflows `usize` on an empty list, and Enter on an empty list reaches `expect` with no item | an empty registry, then key `j`, `k` or Enter | on an empty list every key is a no-op and nothing is published | not executed | ListBox.OnKeyAsWritten, ListBox.EmptyListPanicsAsWritten | ListBox.ListBoxState.OnKey |
