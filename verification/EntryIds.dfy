/** ParallelDataCollector::getEntryIDs and getMaxID: reading the set of listed iterations out. */
module EntryIds {

  lemma HasMember(s: set<int>)
    ensures s == {} || exists x :: x in s
  {
    if !(exists x :: x in s) {
      assert forall x :: x !in s;
      assert s == {};
    }
  }

  lemma {:induction false} LeastExists(s: set<int>) returns (m: int)
    requires |s| > 0
    ensures m in s && forall x | x in s :: m <= x
    decreases |s|
  {
    HasMember(s);
    m :| m in s;
    var others := s - {m};
    assert forall x | x in s :: x == m || x in others;
    if |others| > 0 {
      var least := LeastExists(others);
      m := if least < m then least else m;
    }
  }

  /** getEntryIDs: the ids of a std::set come out in ascending order. */
  method GetEntryIDs(fileIds: set<int>) returns (count: nat, ids: seq<int>)
    ensures count == |fileIds| == |ids| && forall x :: x in ids <==> x in fileIds
    ensures forall j, k | 0 <= j < k < |ids| :: ids[j] < ids[k]
  {
    count := |fileIds|;
    ids := [];
    var rest := fileIds;
    while |rest| > 0
      invariant rest <= fileIds && |ids| + |rest| == |fileIds|
      invariant forall x :: x in ids <==> x in fileIds && x !in rest
      invariant forall j, k | 0 <= j < k < |ids| :: ids[j] < ids[k]
      invariant forall x, y | x in ids && y in rest :: x < y
      decreases |rest|
    {
      ghost var m := LeastExists(rest);
      var next :| next in rest && forall x | x in rest :: next <= x;
      forall j | 0 <= j < |ids| ensures ids[j] < next {
        assert ids[j] in ids;
      }
      ids := ids + [next];
      rest := rest - {next};
    }
  }

  /** getMaxID: the last of the ids in ascending order; without any file the stored value stays. */
  method GetMaxID(fileIds: set<int>, stored: int) returns (maxId: int)
    ensures fileIds == {} ==> maxId == stored
    ensures fileIds != {} ==> maxId in fileIds && forall x | x in fileIds :: x <= maxId
  {
    maxId := stored;
    if |fileIds| > 0 {
      var _, ids := GetEntryIDs(fileIds);
      maxId := ids[|ids| - 1];
      forall x | x in fileIds ensures x <= maxId {
        assert x in ids;
      }
    }
  }
}
