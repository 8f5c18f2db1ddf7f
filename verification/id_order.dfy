/** Ascending enumeration of a finite set of record ids. The table queries
    have no ORDER BY; the model fixes ascending id order for list results. */
module IdOrder {

  /** Each id is smaller than the next. */
  predicate Ascending(ids: seq<int>)
  {
    forall i, j :: 0 <= i < j < |ids| ==> ids[i] < ids[j]
  }

  /** A non-empty set has a member. This is the step the verifier does not
      take by itself when it also checks for contradictory assumptions; it is
      what lets `HasLeast` pick an element. */
  lemma HasMember(ids: set<int>)
    requires ids != {}
    ensures exists y :: y in ids
  {
    if forall y :: y !in ids {
      assert false;
    }
  }

  /** Every non-empty finite set of ids has a least element. */
  lemma {:induction false} HasLeast(ids: set<int>)
    requires ids != {}
    ensures exists m :: m in ids && forall x :: x in ids ==> m <= x
  {
    HasMember(ids);
    var y :| y in ids;
    var rest := ids - {y};
    if rest == {} {
      forall x | x in ids
        ensures y <= x
      {
        assert x == y || x in rest;
      }
    } else {
      HasLeast(rest);
      var m :| m in rest && forall x :: x in rest ==> m <= x;
      var least := if y < m then y else m;
      forall x | x in ids
        ensures least <= x
      {
        if x != y {
          assert x in rest;
        }
      }
    }
  }

  /** The least id of a non-empty set. */
  function Least(ids: set<int>): (m: int)
    requires ids != {}
    ensures m in ids
    ensures forall x :: x in ids ==> m <= x
  {
    HasLeast(ids);
    var m :| m in ids && forall x :: x in ids ==> m <= x;
    m
  }

  /** The ids of a finite set, each exactly once, in ascending order. */
  function SortedIds(ids: set<int>): (r: seq<int>)
    ensures |r| == |ids|
    ensures forall x :: x in r <==> x in ids
    ensures Ascending(r)
    decreases |ids|
  {
    if ids == {} then []
    else
      var m := Least(ids);
      var rest := SortedIds(ids - {m});
      assert |ids - {m}| == |ids| - 1;
      assert forall i :: 0 <= i < |rest| ==> m < rest[i] by {
        forall i | 0 <= i < |rest|
          ensures m < rest[i]
        {
          assert rest[i] in rest;
        }
      }
      [m] + rest
  }
}
