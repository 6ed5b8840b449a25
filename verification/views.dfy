/**
 The views the dashboard derives from the normalised columns: the Status
 column, the latest reading shown in the metric tiles, and the log table of
 the most recent rows.
 */
module Views {
  import opened Signal
  import opened Feed

  /** The dashboard's table: Time, RSSI and Status, one row per reading. */
  datatype Frame<T> = Frame(time: seq<T>, rssi: seq<int>, status: seq<Status>)

  /** The three columns have one entry per row. */
  predicate WellFormed<T>(f: Frame<T>)
  {
    |f.time| == |f.rssi| == |f.status|
  }

  /** Number of rows the log table shows. */
  const LogRows: nat := 10

  /** The Status column: the classifier applied to each RSSI, in place. */
  function StatusColumn(rssi: seq<int>): (s: seq<Status>)
    ensures |s| == |rssi|
    ensures forall i :: 0 <= i < |rssi| ==> s[i] == RssiStatus(rssi[i])
  {
    seq(|rssi|, i requires 0 <= i < |rssi| => RssiStatus(rssi[i]))
  }

  /** The table built from the normalised columns, with the Status column
      added; the Time and RSSI columns are kept as they are. */
  function WithStatus<T>(c: Columns<T>): (f: Frame<T>)
    requires |c.time| == |c.rssi|
    ensures WellFormed(f)
    ensures f.time == c.time && f.rssi == c.rssi
    ensures forall i :: 0 <= i < |f.rssi| ==> f.status[i] == RssiStatus(f.rssi[i])
  {
    Frame(c.time, c.rssi, StatusColumn(c.rssi))
  }

  /** The last entry of a column, which only a non-empty column has. */
  function Latest<X>(s: seq<X>): (x: X)
    requires |s| > 0
    ensures x in s
  {
    s[|s| - 1]
  }

  /** Appending a reading makes it the latest one. */
  lemma LatestOfAppend<X>(s: seq<X>, x: X)
    ensures Latest(s + [x]) == x
  {
  }

  /** The last `n` entries of a column, or all of them when there are fewer:
      a suffix of the column, in the column's order. */
  function Tail<X>(s: seq<X>, n: nat): (r: seq<X>)
    ensures |r| == if |s| < n then |s| else n
    ensures r == s[|s| - |r|..]
  {
    if |s| <= n then s else s[|s| - n..]
  }

  /** Taking the tail of a tail changes nothing. */
  lemma TailIdempotent<X>(s: seq<X>, n: nat)
    ensures Tail(Tail(s, n), n) == Tail(s, n)
  {
  }

  /** The last row of the log table is the latest reading. */
  lemma TailKeepsLatest<X>(s: seq<X>, n: nat)
    requires |s| > 0 && n > 0
    ensures |Tail(s, n)| > 0
    ensures Latest(Tail(s, n)) == Latest(s)
  {
  }

  /** Classifying the tail gives the tail of the Status column. */
  lemma {:induction false} StatusOfTail(rssi: seq<int>, n: nat)
    ensures StatusColumn(Tail(rssi, n)) == Tail(StatusColumn(rssi), n)
  {
    var a := StatusColumn(Tail(rssi, n));
    var b := Tail(StatusColumn(rssi), n);
    assert |a| == |b|;
    var off := |rssi| - |a|;
    assert Tail(rssi, n) == rssi[off..];
    assert b == StatusColumn(rssi)[off..];
    forall k | 0 <= k < |a|
      ensures a[k] == b[k]
    {
      assert a[k] == RssiStatus(rssi[off..][k]);
      assert b[k] == StatusColumn(rssi)[off + k];
    }
  }

  /** The status shown beside the latest reading, which the dashboard
      computes afresh, equals the last entry of the Status column. */
  lemma LatestStatusAgrees(rssi: seq<int>)
    requires |rssi| > 0
    ensures RssiStatus(Latest(rssi)) == Latest(StatusColumn(rssi))
  {
  }

  /** The log table: the last `n` rows of every column. */
  function TailFrame<T>(f: Frame<T>, n: nat): (t: Frame<T>)
    requires WellFormed(f)
    ensures WellFormed(t)
    ensures |t.rssi| == if |f.rssi| < n then |f.rssi| else n
    ensures forall k :: 0 <= k < |t.rssi| ==>
              && t.time[k] == f.time[|f.rssi| - |t.rssi| + k]
              && t.rssi[k] == f.rssi[|f.rssi| - |t.rssi| + k]
              && t.status[k] == f.status[|f.rssi| - |t.rssi| + k]
  {
    Frame(Tail(f.time, n), Tail(f.rssi, n), Tail(f.status, n))
  }
}
