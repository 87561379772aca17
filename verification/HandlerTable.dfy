/** The table of message handlers, indexed by topic filter (MQTTClient.h): a bounded map kept in slots. */
module HandlerTable {
  import opened Base
  import opened TopicMatch

  /** A slot is free when its filter is null; freeing may leave the function pointer behind. */
  datatype Slot = Slot(filter: Option<Bytes>, fp: Option<nat>)

  type Table = seq<Slot>

  /** The first slot whose filter is `f` (a null `f` looks for a free slot), or the size of the table. */
  function FirstWith(t: Table, f: Option<Bytes>): (i: nat)
    ensures i <= |t|
    ensures i < |t| ==> t[i].filter == f
    ensures forall k :: 0 <= k < i ==> t[k].filter != f
  {
    if t == [] || t[0].filter == f then 0 else 1 + FirstWith(t[1..], f)
  }

  /** The handler under a filter: the map the table stands for. */
  function Lookup(t: Table, f: Bytes): Option<nat> {
    var i := FirstWith(t, Some(f));
    if i < |t| then t[i].fp else None
  }

  function Filters(t: Table): set<Bytes> {
    set i | 0 <= i < |t| && t[i].filter.Some? :: t[i].filter.value
  }

  predicate Distinct(t: Table) {
    forall i, j :: 0 <= i < j < |t| && t[i].filter.Some? ==> t[i].filter != t[j].filter
  }

  predicate Attached(t: Table) {
    forall i :: 0 <= i < |t| && t[i].filter.Some? ==> t[i].fp.Some?
  }

  /** Occupied slots hold different filters and have a handler attached. */
  predicate Valid(t: Table) { Distinct(t) && Attached(t) }

  lemma LookupIs(t: Table, i: nat, f: Bytes)
    requires Valid(t) && i < |t| && t[i].filter == Some(f)
    ensures FirstWith(t, Some(f)) == i && Lookup(t, f) == t[i].fp
  {
    var k := FirstWith(t, Some(f));
    assert k <= i;
  }

  lemma Occupied(t: Table, f: Bytes)
    ensures FirstWith(t, Some(f)) < |t| <==> f in Filters(t)
  {
    var j := FirstWith(t, Some(f));
    if j < |t| {
      assert t[j].filter.Some? && t[j].filter.value == f;
    }
    if f in Filters(t) {
      var i :| 0 <= i < |t| && t[i].filter.Some? && t[i].filter.value == f;
      assert j <= i;
    }
  }

  /** A free slot exists exactly while the map holds fewer filters than the table has slots. */
  lemma FreeSlot(t: Table)
    requires Valid(t)
    ensures |Filters(t)| <= |t|
    ensures FirstWith(t, None) < |t| <==> |Filters(t)| < |t|
  {
    CountFilters(t);
    if k :| 0 <= k < |t| && t[k].filter.None? {
      assert t[k].filter == None;
      assert FirstWith(t, None) <= k;
    }
  }

  predicate AllUsed(t: Table) {
    forall k :: 0 <= k < |t| ==> t[k].filter.Some?
  }

  lemma {:induction false} CountFilters(t: Table)
    requires Distinct(t)
    ensures |Filters(t)| <= |t|
    ensures |Filters(t)| == |t| <==> AllUsed(t)
    decreases |t|
  {
    if t == [] {
      assert Filters(t) == {};
    } else {
      var s, rest := t[0], t[1..];
      Tail(t);
      CountFilters(rest);
      FiltersCons(s, rest);
      hide Filters, AllUsed, Distinct;
      if s.filter.Some? {
        assert Filters(t) == Filters(rest) + {s.filter.value};
      }
    }
  }

  lemma Tail(t: Table)
    requires Distinct(t) && t != []
    ensures var s, rest := t[0], t[1..];
            && t == [s] + rest && Distinct(rest)
            && (AllUsed(t) <==> s.filter.Some? && AllUsed(rest))
            && (s.filter.Some? ==> s.filter.value !in Filters(rest))
  {
    var rest := t[1..];
    assert forall k :: 0 <= k < |rest| ==> rest[k] == t[k + 1];
    if AllUsed(rest) && t[0].filter.Some? {
      forall k | 0 <= k < |t| ensures t[k].filter.Some? {
        assert k > 0 ==> rest[k - 1] == t[k];
      }
    }
  }

  /** Writing a slot changes the map at one filter only. */
  lemma Put(t: Table, i: nat, f: Bytes, h: nat)
    requires Valid(t) && i < |t|
    requires t[i].filter == Some(f) || (t[i].filter.None? && f !in Filters(t))
    ensures var t' := t[i := Slot(Some(f), Some(h))];
            && Valid(t')
            && (forall g :: Lookup(t', g) == if g == f then Some(h) else Lookup(t, g))
  {
    var t' := t[i := Slot(Some(f), Some(h))];
    assert forall k :: 0 <= k < |t| && k != i && t[k].filter.Some? ==> t[k].filter.value != f by {
      forall k | 0 <= k < |t| && k != i && t[k].filter.Some?
        ensures t[k].filter.value != f
      {
        assert t[k].filter.value in Filters(t);
      }
    }
    forall g ensures Lookup(t', g) == if g == f then Some(h) else Lookup(t, g) {
      if g == f {
        LookupIs(t', i, f);
      } else {
        SameLookup(t, t', g);
      }
    }
  }

  /** Freeing a slot removes one filter from the map. */
  lemma Remove(t: Table, i: nat, f: Bytes, fp: Option<nat>)
    requires Valid(t) && i < |t| && t[i].filter == Some(f)
    ensures var t' := t[i := Slot(None, fp)];
            && Valid(t')
            && (forall g :: Lookup(t', g) == if g == f then None else Lookup(t, g))
  {
    var t' := t[i := Slot(None, fp)];
    forall g ensures Lookup(t', g) == if g == f then None else Lookup(t, g) {
      if g == f {
        assert forall k :: 0 <= k < |t| && k != i ==> t[k].filter != t[i].filter;
      } else {
        SameLookup(t, t', g);
      }
    }
  }

  lemma SameLookup(t: Table, t': Table, g: Bytes)
    requires |t| == |t'|
    requires forall k :: 0 <= k < |t| ==> (t[k].filter == Some(g) <==> t'[k].filter == Some(g))
    requires forall k :: 0 <= k < |t| && t[k].filter == Some(g) ==> t[k].fp == t'[k].fp
    ensures Lookup(t, g) == Lookup(t', g)
  {
    var i, j := FirstWith(t, Some(g)), FirstWith(t', Some(g));
    assert i == j;
  }

  // ----- Delivery -----

  predicate Matches(f: Bytes, topic: Bytes) {
    topic == f || MatchFrom(f, 0, topic, 0)
  }

  /** The handlers called for a topic, in slot order from slot `i` on. */
  function CalledFrom(t: Table, topic: Bytes, i: nat): seq<nat>
    requires i <= |t|
    decreases |t| - i
  {
    if i == |t| then []
    else
      (if t[i].filter.Some? && t[i].fp.Some? && Matches(t[i].filter.value, topic) then [t[i].fp.value] else [])
      + CalledFrom(t, topic, i + 1)
  }

  lemma CalledNone(t: Table, topic: Bytes)
    ensures CalledFrom(t, topic, |t|) == []
  {
  }

  lemma CalledNext(t: Table, topic: Bytes, i: nat, before: seq<nat>)
    requires i < |t|
    ensures before + CalledFrom(t, topic, i)
              == (if t[i].filter.Some? && t[i].fp.Some? && Matches(t[i].filter.value, topic)
                  then before + [t[i].fp.value] else before) + CalledFrom(t, topic, i + 1)
  {
    hide Matches;
    var rest := CalledFrom(t, topic, i + 1);
    if t[i].filter.Some? && t[i].fp.Some? && Matches(t[i].filter.value, topic) {
      assert before + ([t[i].fp.value] + rest) == before + [t[i].fp.value] + rest;
    } else {
      assert before + ([] + rest) == before + rest;
    }
  }

  /** All the handlers called: those that match, or else the default one. */
  function Called(t: Table, default: Option<nat>, topic: Bytes): seq<nat> {
    var cs := CalledFrom(t, topic, 0);
    if cs == [] && default.Some? then [default.value] else cs
  }

  /** The filters of the table that match a topic. */
  function MatchingFilters(t: Table, topic: Bytes): set<Bytes> {
    set f | f in Filters(t) && Matches(f, topic)
  }

  /** Those of them under which the handler `h` is kept. */
  function MatchingUnder(t: Table, topic: Bytes, h: nat): set<Bytes> {
    set f | f in MatchingFilters(t, topic) && Lookup(t, f) == Some(h)
  }

  lemma {:induction false} CalledCount(t: Table, topic: Bytes, i: nat, h: nat)
    requires Distinct(t) && Attached(t) && i <= |t|
    ensures |CalledFrom(t, topic, i)| == |MatchingFilters(t[i..], topic)|
    ensures multiset(CalledFrom(t, topic, i))[h] == |MatchingUnder(t[i..], topic, h)|
    decreases |t| - i
  {
    hide Matches, Lookup, FirstWith, Filters, MatchingFilters, MatchingUnder, Distinct, Hit;
    if i == |t| {
      NoneMatch(topic, h);
      assert t[i..] == [];
    } else {
      CalledCount(t, topic, i + 1, h);
      var s, rest := t[i], t[i + 1..];
      assert t[i..] == [s] + rest;
      DistinctRest(t, i);
      CountCons(s, rest, topic, h);
      CalledCons(t, topic, i, h);
    }
  }

  lemma DistinctRest(t: Table, i: nat)
    requires Distinct(t) && i < |t|
    ensures t[i].filter.Some? ==> t[i].filter.value !in Filters(t[i + 1..])
  {
    assert Distinct(t[i..]);
    Tail(t[i..]);
    assert t[i..][1..] == t[i + 1..];
  }

  lemma CalledCons(t: Table, topic: Bytes, i: nat, h: nat)
    requires Attached(t) && i < |t|
    ensures var cs, rest := CalledFrom(t, topic, i), CalledFrom(t, topic, i + 1);
            && |cs| == |rest| + (if Hit(t[i], topic) then 1 else 0)
            && multiset(cs)[h] == multiset(rest)[h] + if Hit(t[i], topic) && t[i].fp == Some(h) then 1 else 0
  {
    hide Matches;
  }

  lemma NoneMatch(topic: Bytes, h: nat)
    ensures MatchingFilters([], topic) == {} && MatchingUnder([], topic, h) == {}
  {
    assert Filters([]) == {};
  }

  predicate Hit(s: Slot, topic: Bytes) { s.filter.Some? && Matches(s.filter.value, topic) }

  lemma MatchingCons(s: Slot, rest: Table, topic: Bytes)
    ensures MatchingFilters([s] + rest, topic)
              == MatchingFilters(rest, topic) + if Hit(s, topic) then {s.filter.value} else {}
    ensures MatchingFilters(rest, topic) <= Filters(rest)
  {
    hide Matches, Filters;
    FiltersCons(s, rest);
  }

  lemma LookupCons(s: Slot, rest: Table, f: Bytes)
    ensures Lookup([s] + rest, f) == if s.filter == Some(f) then s.fp else Lookup(rest, f)
  {
    assert ([s] + rest)[1..] == rest;
  }

  lemma UnderCons(s: Slot, rest: Table, topic: Bytes, h: nat)
    requires s.filter.Some? ==> s.filter.value !in Filters(rest)
    ensures MatchingUnder([s] + rest, topic, h)
              == MatchingUnder(rest, topic, h) + if Hit(s, topic) && s.fp == Some(h) then {s.filter.value} else {}
    ensures MatchingUnder(rest, topic, h) <= Filters(rest)
  {
    hide Matches, Filters, Lookup, MatchingFilters;
    MatchingCons(s, rest, topic);
    forall f | f in MatchingFilters([s] + rest, topic)
      ensures Lookup([s] + rest, f) == if s.filter == Some(f) then s.fp else Lookup(rest, f)
    {
      LookupCons(s, rest, f);
    }
  }

  lemma CountCons(s: Slot, rest: Table, topic: Bytes, h: nat)
    requires s.filter.Some? ==> s.filter.value !in Filters(rest)
    ensures var t := [s] + rest;
            && |MatchingFilters(t, topic)| == |MatchingFilters(rest, topic)| + (if Hit(s, topic) then 1 else 0)
            && |MatchingUnder(t, topic, h)|
                 == |MatchingUnder(rest, topic, h)| + if Hit(s, topic) && s.fp == Some(h) then 1 else 0
  {
    hide Matches, Filters, MatchingFilters, MatchingUnder;
    MatchingCons(s, rest, topic);
    UnderCons(s, rest, topic, h);
  }

  lemma FiltersCons(s: Slot, rest: Table)
    ensures Filters([s] + rest) == Filters(rest) + if s.filter.Some? then {s.filter.value} else {}
  {
    var t := [s] + rest;
    forall f ensures f in Filters(t) <==> f in Filters(rest) || s.filter == Some(f) {
      if f in Filters(t) {
        var k :| 0 <= k < |t| && t[k].filter.Some? && t[k].filter.value == f;
        if k > 0 {
          assert rest[k - 1] == t[k];
        }
      }
      if f in Filters(rest) {
        var k :| 0 <= k < |rest| && rest[k].filter.Some? && rest[k].filter.value == f;
        assert t[k + 1] == rest[k];
      }
      if s.filter == Some(f) {
        assert t[0] == s;
      }
    }
  }

  /**
   Every handler is called exactly as often as it is kept under a filter that matches; the default handler is called
   exactly when no filter does.
   */
  lemma DeliveryComplete(t: Table, default: Option<nat>, topic: Bytes)
    requires Valid(t)
    ensures MatchingFilters(t, topic) != {} ==>
              && |Called(t, default, topic)| == |MatchingFilters(t, topic)|
              && (forall f :: f in MatchingFilters(t, topic) ==> Lookup(t, f).Some?)
              && (forall h :: multiset(Called(t, default, topic))[h] == |MatchingUnder(t, topic, h)|)
    ensures MatchingFilters(t, topic) == {} ==>
              Called(t, default, topic) == if default.Some? then [default.value] else []
  {
    hide Matches, MatchingUnder;
    assert t[0..] == t;
    CalledCount(t, topic, 0, 0);
    forall h ensures multiset(CalledFrom(t, topic, 0))[h] == |MatchingUnder(t, topic, h)| {
      CalledCount(t, topic, 0, h);
    }
    forall f | f in MatchingFilters(t, topic) ensures Lookup(t, f).Some? {
      var i :| 0 <= i < |t| && t[i].filter.Some? && t[i].filter.value == f;
      LookupIs(t, i, f);
    }
  }
}
