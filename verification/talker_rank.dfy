/**
  The talker-ranking diff of the dashboard's talker grid.

  Every polling cycle the backend returns the current top talkers in rank
  order. Each talker pair gets a 1-based grid position, is compared with the
  position recorded for it in an earlier cycle, and the position it has now
  is recorded for the next cycle. The recorded map is only ever inserted into
  or overwritten, never pruned.
 */
module TalkerRank {

  /** The composite id of a talker pair (internal IP, external IP). */
  type TalkerId = string

  /** The last 1-based grid position recorded for every talker pair seen. */
  type Positions = map<TalkerId, nat>

  /** The change indicator drawn next to a grid cell. */
  datatype Change = New | Up | Down | Same

  /** One cell of the grid: which pair, at which position, with which indicator. */
  datatype GridItem = GridItem(id: TalkerId, position: nat, change: Change)

  /** The outcome of one cycle: the updated record and the cells in list order. */
  datatype Cycle = Cycle(lastUpdate: Positions, items: seq<GridItem>)

  /** The Font Awesome class the grid uses for an indicator; `Same` draws nothing. */
  function IndicatorClass(c: Change): (cls: string)
    ensures cls == "" <==> c == Same
  {
    match c
    case New => "fa-plus-circle"
    case Up => "fa-arrow-circle-up"
    case Down => "fa-arrow-circle-down"
    case Same => ""
  }

  /** Different indicators are drawn with different classes. */
  lemma IndicatorClassInjective(c: Change, d: Change)
    requires c != d
    ensures IndicatorClass(c) != IndicatorClass(d)
  {
  }

  /**
    The indicator of a pair now at `position`, judged against `recorded`.
    A pair with no record is new; otherwise a smaller position number than the
    recorded one shows Down and a larger one shows Up.
   */
  function Classify(recorded: Positions, id: TalkerId, position: nat): (c: Change)
    ensures c == New <==> id !in recorded
    ensures c == Down <==> id in recorded && position < recorded[id]
    ensures c == Same <==> id in recorded && position == recorded[id]
    ensures c == Up <==> id in recorded && position > recorded[id]
  {
    if id in recorded then
      if position < recorded[id] then Down
      else if position == recorded[id] then Same
      else Up
    else
      New
  }

  /** The set of ids occurring in a list. */
  function Ids(talkers: seq<TalkerId>): set<TalkerId>
  {
    set t | t in talkers
  }

  /**
    One cycle of the diff as a fold over the list: the item at index i is
    given position i + 1, classified against the record as it stands just
    before it, and then recorded at that position.
   */
  function Rank(recorded: Positions, talkers: seq<TalkerId>): (r: Cycle)
    ensures |r.items| == |talkers|
    ensures forall i :: 0 <= i < |talkers| ==> r.items[i].id == talkers[i] && r.items[i].position == i + 1
    ensures r.lastUpdate.Keys == recorded.Keys + Ids(talkers)
    decreases |talkers|
  {
    if |talkers| == 0 then
      Cycle(recorded, [])
    else
      var n := |talkers|;
      var id := talkers[n - 1];
      var before := Rank(recorded, talkers[..n - 1]);
      assert talkers == talkers[..n - 1] + [id];
      var item := GridItem(id, n, Classify(before.lastUpdate, id, n));
      Cycle(before.lastUpdate[id := n], before.items + [item])
  }

  /** Taking one more entry of the list into the cycle runs one more step of the fold. */
  lemma RankNext(recorded: Positions, talkers: seq<TalkerId>, k: nat)
    requires k < |talkers|
    ensures var before := Rank(recorded, talkers[..k]);
            var id := talkers[k];
            && Rank(recorded, talkers[..k + 1]).lastUpdate == before.lastUpdate[id := k + 1]
            && Rank(recorded, talkers[..k + 1]).items
               == before.items + [GridItem(id, k + 1, Classify(before.lastUpdate, id, k + 1))]
  {
    assert talkers[..k + 1][..k] == talkers[..k];
  }

  /**
    After a cycle every listed id is recorded at the position of its last
    occurrence in the list: a later duplicate overwrites an earlier one.
   */
  lemma {:induction false} RankRecordsLastOccurrence(recorded: Positions, talkers: seq<TalkerId>, i: nat)
    requires i < |talkers|
    requires forall j :: i < j < |talkers| ==> talkers[j] != talkers[i]
    ensures Rank(recorded, talkers).lastUpdate[talkers[i]] == i + 1
    decreases |talkers|
  {
    var n := |talkers|;
    if i < n - 1 {
      var prefix := talkers[..n - 1];
      assert prefix[i] == talkers[i];
      RankRecordsLastOccurrence(recorded, prefix, i);
      assert talkers[n - 1] != talkers[i];
    }
  }

  /** An id absent from the list keeps whatever record it had, or stays unrecorded. */
  lemma {:induction false} RankKeepsAbsent(recorded: Positions, talkers: seq<TalkerId>, id: TalkerId)
    requires id !in talkers
    ensures id in Rank(recorded, talkers).lastUpdate <==> id in recorded
    ensures id in recorded ==> Rank(recorded, talkers).lastUpdate[id] == recorded[id]
    decreases |talkers|
  {
    if |talkers| > 0 {
      var n := |talkers|;
      var prefix := talkers[..n - 1];
      RankKeepsAbsent(recorded, prefix, id);
      assert talkers[n - 1] != id;
    }
  }

  /** Dropping the last entry of the list does not change the cells before it. */
  lemma RankDropLast(recorded: Positions, talkers: seq<TalkerId>, k: nat)
    requires k < |talkers|
    ensures Rank(recorded, talkers).items[..k] == Rank(recorded, talkers[..|talkers| - 1]).items[..k]
  {
    var before := Rank(recorded, talkers[..|talkers| - 1]).items;
    var all := Rank(recorded, talkers).items;
    assert all == before + [all[|talkers| - 1]];
  }

  /** The cells of a prefix of the list are the cells the prefix alone produces. */
  lemma {:induction false} RankPrefix(recorded: Positions, talkers: seq<TalkerId>, k: nat)
    requires k <= |talkers|
    ensures Rank(recorded, talkers).items[..k] == Rank(recorded, talkers[..k]).items
    decreases |talkers|
  {
    var n := |talkers|;
    if k < n {
      var prefix := talkers[..n - 1];
      RankDropLast(recorded, talkers, k);
      RankPrefix(recorded, prefix, k);
      assert prefix[..k] == talkers[..k];
    } else {
      assert talkers[..k] == talkers;
    }
  }

  /**
    The indicator of each cell depends only on the record as it stood just
    before that cell was processed, and is reset for every cell.
   */
  lemma RankItemUsesStateBefore(recorded: Positions, talkers: seq<TalkerId>, i: nat)
    requires i < |talkers|
    ensures Rank(recorded, talkers).items[i].change
         == Classify(Rank(recorded, talkers[..i]).lastUpdate, talkers[i], i + 1)
  {
    RankPrefix(recorded, talkers, i + 1);
    var upTo := talkers[..i + 1];
    assert upTo[..i] == talkers[..i];
    assert Rank(recorded, talkers).items[i] == Rank(recorded, upTo).items[i];
  }

  /** The index of the last occurrence of `x` in `s`. */
  function LastIndexOf(s: seq<TalkerId>, x: TalkerId): (j: nat)
    requires x in s
    ensures j < |s| && s[j] == x
    ensures forall k :: j < k < |s| ==> s[k] != x
    decreases |s|
  {
    if s[|s| - 1] == x then
      |s| - 1
    else
      assert x in s[..|s| - 1] by {
        var j :| 0 <= j < |s| && s[j] == x;
        assert s[..|s| - 1][j] == x;
      }
      LastIndexOf(s[..|s| - 1], x)
  }

  /**
    The indicator of the cell at index i, stated from the inputs alone rather
    than from the fold's running state: a pair that already appeared earlier
    in the same list always reads Up (its earlier position is smaller), and
    otherwise it is judged against the record of the previous cycles.
   */
  function ExpectedChange(recorded: Positions, talkers: seq<TalkerId>, i: nat): Change
    requires i < |talkers|
  {
    var id := talkers[i];
    if id in talkers[..i] then Up
    else if id !in recorded then New
    else if i + 1 < recorded[id] then Down
    else if i + 1 == recorded[id] then Same
    else Up
  }

  /** The fold's indicators agree with the input-only description. */
  lemma RankChangeMatchesExpected(recorded: Positions, talkers: seq<TalkerId>, i: nat)
    requires i < |talkers|
    ensures Rank(recorded, talkers).items[i].change == ExpectedChange(recorded, talkers, i)
  {
    RankItemUsesStateBefore(recorded, talkers, i);
    var id := talkers[i];
    var prefix := talkers[..i];
    if id in prefix {
      var j := LastIndexOf(prefix, id);
      RankRecordsLastOccurrence(recorded, prefix, j);
    } else {
      RankKeepsAbsent(recorded, prefix, id);
    }
  }

  /** A cell is marked new exactly when its pair was never recorded and has not appeared earlier in the list. */
  lemma RankNewIff(recorded: Positions, talkers: seq<TalkerId>, i: nat)
    requires i < |talkers|
    ensures Rank(recorded, talkers).items[i].change == New
        <==> talkers[i] !in recorded && talkers[i] !in talkers[..i]
  {
    RankChangeMatchesExpected(recorded, talkers, i);
  }

  /** No two entries of the list are the same pair. */
  predicate Distinct(talkers: seq<TalkerId>)
  {
    forall j, k :: 0 <= j < k < |talkers| ==> talkers[j] != talkers[k]
  }

  /**
    Receiving the same duplicate-free list twice in a row shows every cell
    unchanged the second time.
   */
  lemma RankRepeatShowsSame(recorded: Positions, talkers: seq<TalkerId>, i: nat)
    requires Distinct(talkers)
    requires i < |talkers|
    ensures Rank(Rank(recorded, talkers).lastUpdate, talkers).items[i].change == Same
  {
    var first := Rank(recorded, talkers).lastUpdate;
    RankRecordsLastOccurrence(recorded, talkers, i);
    RankChangeMatchesExpected(first, talkers, i);
    assert talkers[i] !in talkers[..i];
  }

  /** Receiving the same duplicate-free list twice in a row leaves the record as the first time left it. */
  lemma RankRepeatKeepsRecord(recorded: Positions, talkers: seq<TalkerId>)
    requires Distinct(talkers)
    ensures var first := Rank(recorded, talkers).lastUpdate;
            Rank(first, talkers).lastUpdate == first
  {
    var first := Rank(recorded, talkers).lastUpdate;
    var second := Rank(first, talkers).lastUpdate;
    forall id | id in first
      ensures second[id] == first[id]
    {
      if id in talkers {
        var i :| 0 <= i < |talkers| && talkers[i] == id;
        RankRecordsLastOccurrence(recorded, talkers, i);
        RankRecordsLastOccurrence(first, talkers, i);
      } else {
        RankKeepsAbsent(first, talkers, id);
      }
    }
  }
}
