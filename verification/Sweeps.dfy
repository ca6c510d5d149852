/** Loops over a dictionary that replace or drop each value and report what they did. */
module Sweeps {
  import opened Wrappers

  /** What one step does: the new value, or none to drop the entry, and what it reports. */
  datatype Outcome<+T, +E, +R> = Outcome(value: Option<T>, events: seq<E>, errors: seq<R>)

  // An iteration order: every key once.
  ghost predicate Lists<V>(order: seq<string>, m: map<string, V>) {
    && (forall id :: id in order <==> id in m)
    && (forall i, j :: 0 <= i < j < |order| ==> order[i] != order[j])
  }

  // The entries after a sweep of some keys.
  function Swept<V, E, R>(m: map<string, V>, keys: set<string>, check: (string, V) -> Outcome<V, E, R>): map<string, V> {
    map id | id in m && (id in keys ==> check(id, m[id]).value.Some?) ::
      if id in keys then check(id, m[id]).value.value else m[id]
  }

  function Events<V, E, R>(order: seq<string>, m: map<string, V>, check: (string, V) -> Outcome<V, E, R>): seq<E> {
    if order == [] then [] else
      var id := order[|order| - 1];
      Events(order[..|order| - 1], m, check) + if id in m then check(id, m[id]).events else []
  }

  function Errors<V, E, R>(order: seq<string>, m: map<string, V>, check: (string, V) -> Outcome<V, E, R>): seq<R> {
    if order == [] then [] else
      var id := order[|order| - 1];
      Errors(order[..|order| - 1], m, check) + if id in m then check(id, m[id]).errors else []
  }

  lemma {:induction false} EventFrom<V, E, R>(order: seq<string>, m: map<string, V>, check: (string, V) -> Outcome<V, E, R>, e: E)
    ensures e in Events(order, m, check) <==> exists id :: id in order && id in m && e in check(id, m[id]).events
  {
    if order != [] {
      EventFrom(order[..|order| - 1], m, check, e);
      assert order == order[..|order| - 1] + [order[|order| - 1]];
    }
  }

  lemma {:induction false} ErrorFrom<V, E, R>(order: seq<string>, m: map<string, V>, check: (string, V) -> Outcome<V, E, R>, e: R)
    ensures e in Errors(order, m, check) <==> exists id :: id in order && id in m && e in check(id, m[id]).errors
  {
    if order != [] {
      ErrorFrom(order[..|order| - 1], m, check, e);
      assert order == order[..|order| - 1] + [order[|order| - 1]];
    }
  }

  function KeysOf(order: seq<string>): set<string> {
    set id | id in order
  }

  lemma SweptStep<V, E, R>(m: map<string, V>, done: set<string>, check: (string, V) -> Outcome<V, E, R>, id: string)
    requires id in m && id !in done
    ensures var before, o := Swept(m, done, check), check(id, m[id]);
            && id in before && before[id] == m[id]
            && Swept(m, done + {id}, check) == if o.value.Some? then before[id := o.value.value] else before - {id}
  {
  }

  lemma SweptNone<V, E, R>(m: map<string, V>, check: (string, V) -> Outcome<V, E, R>)
    ensures Swept(m, {}, check) == m
  {
  }

  /** The loop: the entries it leaves do not depend on the iteration order. */
  method Sweep<V, E, R>(m: map<string, V>, order: seq<string>, check: (string, V) -> Outcome<V, E, R>)
    returns (r: map<string, V>, events: seq<E>, errors: seq<R>)
    requires Lists(order, m)
    ensures r == Swept(m, m.Keys, check)
    ensures events == Events(order, m, check) && errors == Errors(order, m, check)
  {
    r, events, errors := m, [], [];
    SweptNone(m, check);
    for i := 0 to |order|
      invariant r == Swept(m, KeysOf(order[..i]), check)
      invariant events == Events(order[..i], m, check) && errors == Errors(order[..i], m, check)
    {
      var id := order[i];
      assert order[..i + 1][..i] == order[..i];
      assert KeysOf(order[..i + 1]) == KeysOf(order[..i]) + {id};
      SweptStep(m, KeysOf(order[..i]), check, id);
      var o := check(id, r[id]);
      r := if o.value.Some? then r[id := o.value.value] else r - {id};
      events, errors := events + o.events, errors + o.errors;
    }
    assert order[..|order|] == order && KeysOf(order) == m.Keys;
  }

  // The loop over a list of ids, which changes nothing.
  function ListEvents<E, R>(ids: seq<string>, check: string -> Outcome<(), E, R>): seq<E> {
    if ids == [] then [] else ListEvents(ids[..|ids| - 1], check) + check(ids[|ids| - 1]).events
  }

  function ListErrors<E, R>(ids: seq<string>, check: string -> Outcome<(), E, R>): seq<R> {
    if ids == [] then [] else ListErrors(ids[..|ids| - 1], check) + check(ids[|ids| - 1]).errors
  }

  lemma {:induction false} ListErrorFrom<E, R>(ids: seq<string>, check: string -> Outcome<(), E, R>, e: R)
    ensures e in ListErrors(ids, check) <==> exists id :: id in ids && e in check(id).errors
  {
    if ids != [] {
      ListErrorFrom(ids[..|ids| - 1], check, e);
      assert ids == ids[..|ids| - 1] + [ids[|ids| - 1]];
    }
  }

  method Visit<E, R>(ids: seq<string>, check: string -> Outcome<(), E, R>) returns (events: seq<E>, errors: seq<R>)
    ensures events == ListEvents(ids, check) && errors == ListErrors(ids, check)
  {
    events, errors := [], [];
    for i := 0 to |ids|
      invariant events == ListEvents(ids[..i], check) && errors == ListErrors(ids[..i], check)
    {
      assert ids[..i + 1][..i] == ids[..i];
      var o := check(ids[i]);
      events, errors := events + o.events, errors + o.errors;
    }
    assert ids[..|ids|] == ids;
  }
}
