/**
 * Whole-program runs of the menu, with the two handlers the binary registers at
 * load time ("Test Function 1" and "Test Function 2").
 */
module Scenarios {
  import opened Wrappers
  import Registry
  import opened ListBox
  import opened Application

  /**
   * Register both handlers, build the list from the registry, press Enter on the
   * first item and dispatch what it publishes: whichever name comes first, the
   * result is that name's registered string.
   */
  method SelectFirstEntry() returns (name: string, output: string)
    ensures || (name == "Test Function 1" && output == "Hello folks!")
            || (name == "Test Function 2" && output == "Hello folks from test 2!")
  {
    var registry := new Registry.HandlerRegistry();
    registry.Insert("Test Function 1", Registry.Handler("Hello folks!"));
    registry.Insert("Test Function 2", Registry.Handler("Hello folks from test 2!"));
    var list := new ListBoxState(registry);
    assert |list.items| == 2;
    var published := list.OnKey(Enter);
    // The host's templates are assumed to route the published "select" text to the
    // application as a "function_select" event.
    var routed := Event(FunctionSelectEvent, published.value.data);
    var history := registry.history;
    assert Registry.IsLastFor(history, "Test Function 1", 0) && Registry.IsLastFor(history, "Test Function 2", 1);
    var outcome := OnEvent(registry, routed);
    name, output := outcome.name, outcome.output;
  }

  /** With nothing registered the list is empty and no key press publishes anything. */
  method PressOnEmptyMenu(key: Key) returns (published: Option<Event>, selected: nat)
    ensures published == None && selected == 0
  {
    var registry := new Registry.HandlerRegistry();
    var list := new ListBoxState(registry);
    published := list.OnKey(key);
    selected := list.selected;
  }

  /** On a list of three names with the cursor on the last, `j` wraps to the first. */
  method WrapAroundOnThree() returns (selected: nat)
    ensures selected == 0
  {
    var registry := new Registry.HandlerRegistry();
    registry.Insert("a", Registry.Handler("1"));
    registry.Insert("b", Registry.Handler("2"));
    registry.Insert("c", Registry.Handler("3"));
    var list := new ListBoxState(registry);
    assert |list.items| == 3;
    var _ := list.OnKey(Char('k'));
    assert list.selected == 2;
    var _ := list.OnKey(Char('j'));
    selected := list.selected;
  }
}
