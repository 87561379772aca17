/** The table of incoming QoS 2 packet ids (MQTTClient.h): ten slots, 0 for a free one. */
module Qos2Table {
  import opened Base

  /** The first slot that holds `id`, or the size of the table. */
  function FirstSlot(t: seq<u16>, id: u16): (i: nat)
    ensures i <= |t|
    ensures i < |t| ==> t[i] == id
    ensures forall k :: 0 <= k < i ==> t[k] != id
  {
    if t == [] || t[0] == id then 0 else 1 + FirstSlot(t[1..], id)
  }

  /** The ids the table holds. */
  function Ids(t: seq<u16>): set<u16> {
    set i | 0 <= i < |t| && t[i] != 0 :: t[i]
  }

  predicate Distinct(t: seq<u16>) {
    forall i, j :: 0 <= i < j < |t| && t[i] != 0 ==> t[i] != t[j]
  }

  /** No id is held twice, so the table is full exactly when it holds as many ids as it has slots. */
  lemma {:induction false} FullWhen(t: seq<u16>)
    requires Distinct(t)
    ensures |Ids(t)| <= |t|
    ensures |Ids(t)| == |t| <==> 0 !in t
    decreases |t|
  {
    if t == [] {
      assert Ids(t) == {};
    } else {
      var n := |t| - 1;
      var t' := t[..n];
      FullWhen(t');
      if t[n] == 0 {
        assert Ids(t) == Ids(t');
      } else {
        assert Ids(t) == Ids(t') + {t[n]};
        assert t == t' + [t[n]];
      }
    }
  }

  lemma Occupy(t: seq<u16>, i: nat, id: u16)
    requires i < |t| && t[i] == 0 && Distinct(t) && id !in Ids(t)
    ensures Distinct(t[i := id])
    ensures Ids(t[i := id]) == Ids(t) + (if id == 0 then {} else {id})
  {
    var t' := t[i := id];
    forall x ensures x in Ids(t') <==> x in Ids(t) || (x == id && id != 0) {
      if x in Ids(t) {
        var k :| 0 <= k < |t| && t[k] != 0 && t[k] == x;
        assert t'[k] == x;
      }
      if x == id && id != 0 {
        assert t'[i] == x;
      }
    }
  }

  lemma Release(t: seq<u16>, id: u16)
    requires Distinct(t)
    ensures var i := FirstSlot(t, id);
            var t' := if i < |t| then t[i := 0] else t;
            Distinct(t') && (id != 0 ==> Ids(t') == Ids(t) - {id}) && (id == 0 ==> t' == t)
  {
    var i := FirstSlot(t, id);
    if i < |t| {
      var t' := t[i := 0];
      if id == 0 {
        assert t' == t;
      } else {
        forall x ensures x in Ids(t') <==> x in Ids(t) && x != id {
          if x in Ids(t') {
            var k :| 0 <= k < |t'| && t'[k] != 0 && t'[k] == x;
            assert t[k] == x;
          }
          if x in Ids(t) && x != id {
            var k :| 0 <= k < |t| && t[k] != 0 && t[k] == x;
            assert t'[k] == x;
          }
        }
      }
    } else {
      assert id !in Ids(t);
    }
  }

  lemma FirstFree(t: seq<u16>)
    ensures FirstSlot(t, 0) < |t| <==> 0 in t
  {
    var j := FirstSlot(t, 0);
    if k :| 0 <= k < |t| && t[k] == 0 {
      assert j <= k;
    }
  }

  lemma Cleared(t: seq<u16>)
    requires forall i :: 0 <= i < |t| ==> t[i] == 0
    ensures Distinct(t) && Ids(t) == {}
  {
  }
}
