/** Rows or messages that carry a numeric id: what id lists say about them. */
module Numbered {

  function IdsOf<T>(rows: seq<(nat, T)>): set<nat> {
    set k | 0 <= k < |rows| :: rows[k].0
  }

  lemma IdsOfAppend<T>(rows: seq<(nat, T)>, id: nat, row: T)
    ensures IdsOf(rows + [(id, row)]) == IdsOf(rows) + {id}
  {
    var more := rows + [(id, row)];
    forall x | x in IdsOf(rows) + {id} ensures x in IdsOf(more) {
      if x in IdsOf(rows) {
        var k :| 0 <= k < |rows| && rows[k].0 == x;
        assert more[k].0 == x;
      } else {
        assert more[|rows|].0 == x;
      }
    }
  }

  lemma SameIds<T>(ids: seq<nat>, rows: seq<(nat, T)>)
    requires |ids| == |rows| && forall j :: 0 <= j < |ids| ==> ids[j] == rows[j].0
    ensures (set id | id in ids) == IdsOf(rows)
  {
    forall id | id in IdsOf(rows) ensures id in ids {
      var k :| 0 <= k < |rows| && rows[k].0 == id;
      assert ids[k] == id;
    }
  }
}
