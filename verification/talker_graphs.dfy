/**
  The talker-data handler as written: one pass over the received list that
  bumps the row and position counters, picks each pair's indicator against
  the recorded positions, records the new position, and emits the row
  structure of the grid.
 */
module TalkerGraphs {
  import opened TalkerRank
  import opened TalkerGrid

  /**
    Handle one reply of the top-talkers query. `lastUpdate` is the record
    kept across cycles; the results are the updated record and the grid that
    replaces the previous grid's contents.
   */
  method OnTalkerDataReceived(lastUpdate: Positions, talkers: seq<TalkerId>)
    returns (updated: Positions, grid: seq<Token<GridItem>>)
    ensures updated == Rank(lastUpdate, talkers).lastUpdate
    ensures grid == Layout(Rank(lastUpdate, talkers).items)
    ensures updated.Keys == lastUpdate.Keys + Ids(talkers)
  {
    var divCount := 0;
    var gridCount := 0;
    updated := lastUpdate;
    grid := [];
    ghost var items: seq<GridItem> := [];
    while gridCount < |talkers|
      invariant gridCount <= |talkers|
      invariant Rank(lastUpdate, talkers[..gridCount]).lastUpdate == updated
      invariant Rank(lastUpdate, talkers[..gridCount]).items == items
      invariant Grouping(items) == Step(divCount, grid)
    {
      var id := talkers[gridCount];
      RankNext(lastUpdate, talkers, gridCount);
      gridCount := gridCount + 1;
      var change := Classify(updated, id, gridCount);
      updated := updated[id := gridCount];
      var item := GridItem(id, gridCount, change);
      var step := RowStep(divCount, item);
      divCount := step.divCount;
      grid := grid + step.tokens;
      GroupingExtend(items, item);
      items := items + [item];
    }
    assert talkers[..gridCount] == talkers;
  }
}
