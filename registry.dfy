/**
 * The function registry of the menu: a map from display names to zero-argument
 * handlers, filled by `insert_into_registry`, read by `get_fun` and `names`.
 * The process-wide thread-local cell of the original is modelled as one
 * explicitly constructed object.
 */
module Registry {
  import opened Wrappers

  /** A zero-argument handler, represented by the string it returns when called. */
  datatype Handler = Handler(output: string)

  /** One call of `insert_into_registry`. */
  datatype Registration = Registration(name: string, handler: Handler)

  /** The map obtained by performing the registrations `ops` in order on an empty registry. */
  function Registered(ops: seq<Registration>): map<string, Handler>
  {
    if ops == [] then map[]
    else
      var last := ops[|ops| - 1];
      Registered(ops[..|ops| - 1])[last.name := last.handler]
  }

  /** Some registration in `ops` is under `name`. */
  ghost predicate EverRegistered(ops: seq<Registration>, name: string)
  {
    exists i :: 0 <= i < |ops| && ops[i].name == name
  }

  /** `i` is the position of the most recent registration under `name` in `ops`. */
  ghost predicate IsLastFor(ops: seq<Registration>, name: string, i: int)
  {
    && 0 <= i < |ops|
    && ops[i].name == name
    && forall j :: i < j < |ops| ==> ops[j].name != name
  }

  /**
   * Last writer wins: after any sequence of registrations a name is present exactly
   * when it was registered at least once, and it maps to the handler of its most
   * recent registration.
   */
  lemma {:induction false} LastWriterWins(ops: seq<Registration>, name: string)
    ensures name in Registered(ops) <==> EverRegistered(ops, name)
    ensures forall i :: IsLastFor(ops, name, i) ==> name in Registered(ops) && Registered(ops)[name] == ops[i].handler
  {
    if ops != [] {
      var init, last := ops[..|ops| - 1], ops[|ops| - 1];
      LastWriterWins(init, name);
      if last.name != name {
        forall i | IsLastFor(ops, name, i) ensures IsLastFor(init, name, i) { }
        if EverRegistered(ops, name) {
          var i :| 0 <= i < |ops| && ops[i].name == name;
          assert init[i].name == name;
        }
        if EverRegistered(init, name) {
          var i :| 0 <= i < |init| && init[i].name == name;
          assert ops[i].name == name;
        }
      } else {
        assert ops[|ops| - 1].name == name;
        forall i | IsLastFor(ops, name, i) ensures i == |ops| - 1 { }
      }
    }
  }

  /** Whenever a name was registered, it has a most recent registration. */
  lemma {:induction false} LastForExists(ops: seq<Registration>, name: string)
    requires EverRegistered(ops, name)
    ensures exists i :: IsLastFor(ops, name, i)
  {
    var init, last := ops[..|ops| - 1], ops[|ops| - 1];
    if last.name == name {
      assert IsLastFor(ops, name, |ops| - 1);
    } else {
      var k :| 0 <= k < |ops| && ops[k].name == name;
      assert init[k].name == name;
      LastForExists(init, name);
      var i :| IsLastFor(init, name, i);
      assert IsLastFor(ops, name, i);
    }
  }

  /**
   * The registry object. `entries` is the map the original keeps in its
   * thread-local cell; `history` records every insertion made so far, for the
   * specification only.
   */
  class HandlerRegistry {
    var entries: map<string, Handler>
    ghost var history: seq<Registration>

    /** The map is exactly the result of the insertions recorded. */
    ghost predicate Valid()
      reads this
    {
      entries == Registered(history)
    }

    /** An empty registry (the lazily created cell of the original). */
    constructor ()
      ensures Valid()
      ensures entries == map[] && history == []
    {
      entries := map[];
      history := [];
    }

    /**
     * `insert_into_registry`: adds or overwrites the handler under `name`;
     * every other name keeps its presence and its handler.
     */
    method Insert(name: string, f: Handler)
      requires Valid()
      modifies this
      ensures Valid()
      ensures history == old(history) + [Registration(name, f)]
      ensures entries == old(entries)[name := f]
      ensures entries.Keys == old(entries.Keys) + {name}
      ensures GetFun(name) == Some(f)
      ensures forall n :: n != name ==> GetFun(n) == old(GetFun(n))
    {
      ghost var before := history;
      entries := entries[name := f];
      history := history + [Registration(name, f)];
      assert history[..|history| - 1] == before;
    }

    /**
     * `get_fun`: the handler registered under `name`, or None where the original
     * panics on `unwrap`. It is found exactly when `name` was ever inserted, and it
     * is the handler of the most recent insertion under `name`.
     */
    function GetFun(name: string): (r: Option<Handler>)
      requires Valid()
      reads this
      ensures r.Some? <==> EverRegistered(history, name)
      ensures forall i :: IsLastFor(history, name, i) ==> r == Some(history[i].handler)
    {
      LastWriterWins(history, name);
      if name in entries then Some(entries[name]) else None
    }

    /**
     * `names`: a fresh sequence holding every registered name exactly once. The
     * order is whatever the map's iteration yields, so it is left unspecified.
     */
    method Names() returns (names: seq<string>)
      ensures forall n :: n in names <==> n in entries
      ensures forall i, j :: 0 <= i < j < |names| ==> names[i] != names[j]
      ensures |names| == |entries|
    {
      var remaining := entries.Keys;
      names := [];
      while remaining != {}
        invariant remaining <= entries.Keys
        invariant forall n :: n in names <==> n in entries && n !in remaining
        invariant forall i, j :: 0 <= i < j < |names| ==> names[i] != names[j]
        invariant |names| + |remaining| == |entries|
        decreases remaining
      {
        var n :| n in remaining;
        names := names + [n];
        remaining := remaining - {n};
      }
    }
  }
}
