/** Where a writer puts its seek markers, said of the log alone. */
module SeekSpacing {
  import opened Bytes
  import opened LogFormat

  /** The time of the last marker before block `k`; while there is none, that of the first data block. */
  function LastTime(log: seq<Entry>, k: nat): Option<int>
    requires k <= |log|
  {
    if k == 0 then None
    else
      var before := LastTime(log, k - 1);
      match log[k - 1]
      case MarkerEntry(time, _) => Some(time)
      case DataEntry(d) => if before == None then d.time else before
      case _ => before
  }

  /** The data block `k` is at least a period later than that. */
  predicate IsLate(log: seq<Entry>, k: nat, period: nat)
    requires k < |log| && log[k].DataEntry?
  {
    var t, last := log[k].data.time, LastTime(log, k);
    t.Some? && last.Some? && t.value - last.value >= period
  }

  predicate MarkerFollows(log: seq<Entry>, k: nat) {
    k + 1 < |log| && log[k + 1].MarkerEntry?
  }

  /** A marker follows exactly the data blocks that are a period late; with no period there are no markers. */
  ghost predicate Spaced(log: seq<Entry>, period: nat) {
    if period == 0 then forall k :: 0 <= k < |log| ==> !log[k].MarkerEntry?
    else forall k: nat :: k < |log| && log[k].DataEntry? ==> (MarkerFollows(log, k) <==> IsLate(log, k, period))
  }

  lemma {:induction false} LastTimeStays(log: seq<Entry>, more: seq<Entry>, k: nat)
    requires k <= |log|
    ensures LastTime(log + more, k) == LastTime(log, k)
  {
    if k > 0 {
      LastTimeStays(log, more, k - 1);
    }
  }

  /** One more block that is no marker. */
  lemma SpacedGrows(log: seq<Entry>, e: Entry, period: nat)
    requires Spaced(log, period) && !e.MarkerEntry?
    requires period > 0 && e.DataEntry? ==> !IsLate(log + [e], |log|, period)
    ensures Spaced(log + [e], period)
  {
    var all := log + [e];
    if period > 0 {
      forall k: nat | k < |all| && all[k].DataEntry? ensures MarkerFollows(all, k) <==> IsLate(all, k, period) {
        if k < |log| {
          LastTimeStays(log, [e], k);
          assert MarkerFollows(all, k) == MarkerFollows(log, k);
        }
      }
    }
  }

  /** A late data block and its marker. */
  lemma SpacedGrowsByTwo(log: seq<Entry>, e: Entry, marker: Entry, period: nat)
    requires Spaced(log, period) && e.DataEntry? && marker.MarkerEntry? && period > 0
    requires IsLate(log + [e], |log|, period)
    ensures Spaced(log + [e] + [marker], period)
  {
    var all := log + [e] + [marker];
    assert all == log + [e, marker];
    LastTimeStays(log, [e], |log|);
    forall k: nat | k < |all| && all[k].DataEntry? ensures MarkerFollows(all, k) <==> IsLate(all, k, period) {
      if k <= |log| {
        LastTimeStays(log, [e, marker], k);
        assert k < |log| ==> MarkerFollows(all, k) == MarkerFollows(log, k);
      }
    }
  }
}
