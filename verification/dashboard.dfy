/**
 One render pass of the dashboard, from the decoded answer of the telemetry
 service to what the page shows.

 The fetch, the normalisation and the Status column run inside one guarded
 block: anything that raises there replaces the page with an error message.
 The latest reading is taken after that block, unguarded, so a pass that
 produced no rows ends in an exception the page does not catch.
 */
module Dashboard {
  import opened Results
  import opened Signal
  import opened Feed
  import opened Views

  /** The decoded JSON envelope; `feeds` is `None` when it has no "feeds" key. */
  datatype Envelope<T> = Envelope(feeds: Option<seq<Record<T>>>)

  /** What one pass puts on the page. */
  datatype Screen<T> =
    | FetchError                 // the guarded block raised
    | Uncaught                   // indexing the latest reading of an empty table raised
    | Shown(latestRssi: int, latestStatus: Status, frame: Frame<T>, log: Frame<T>)

  /** The guarded block ran to its end: the request and the decoding
      succeeded, the envelope has a feed list, and no record in it is broken. */
  predicate Fetched<T>(response: Option<Envelope<T>>)
  {
    && response.Some?
    && response.value.feeds.Some?
    && forall i :: 0 <= i < |response.value.feeds.value| ==> !Broken(response.value.feeds.value[i])
  }

  /** A page shown for `feeds`: the table holds, in input order, one row per
      record that carries a reading, with its timestamp, truncated reading
      and status; the latest tile shows the last row and its status; the log
      table is the last ten rows. */
  ghost predicate ShowsFeeds<T>(feeds: seq<Record<T>>, s: Screen<T>)
  {
    && s.Shown?
    && var sel := Selected(feeds);
       && WellFormed(s.frame)
       && |s.frame.rssi| == |sel| > 0
       && (forall k :: 0 <= k < |sel| ==>
             && Usable(feeds[sel[k]])
             && s.frame.time[k] == feeds[sel[k]].createdAt.value
             && s.frame.rssi[k] == RssiOf(feeds[sel[k]])
             && s.frame.status[k] == RssiStatus(s.frame.rssi[k]))
       && s.latestRssi == s.frame.rssi[|s.frame.rssi| - 1]
       && s.latestStatus == RssiStatus(s.latestRssi)
       && s.log == TailFrame(s.frame, LogRows)
  }

  /** The part of a pass after the guarded block has produced its columns:
      the Status column is added, and the latest reading is read without a
      guard, which raises on an empty table. */
  function Present<T>(c: Columns<T>): (s: Screen<T>)
    requires |c.time| == |c.rssi|
    ensures !s.FetchError?
    ensures s.Uncaught? <==> |c.rssi| == 0
    ensures s.Shown? ==>
              && s.frame.time == c.time
              && s.frame.rssi == c.rssi
              && WellFormed(s.frame)
              && (forall k :: 0 <= k < |c.rssi| ==> s.frame.status[k] == RssiStatus(c.rssi[k]))
              && s.latestRssi == c.rssi[|c.rssi| - 1]
              && s.latestStatus == RssiStatus(s.latestRssi)
              && s.log == TailFrame(s.frame, LogRows)
  {
    var frame := WithStatus(c);
    if |frame.rssi| == 0 then Uncaught
    else
      var latest := Latest(frame.rssi);
      assert latest == c.rssi[|c.rssi| - 1];
      Shown(latest, RssiStatus(latest), frame, TailFrame(frame, LogRows))
  }

  /** After a successful pass, the latest reading is missing, and the pass
      ends uncaught, exactly when no record carries a reading. */
  lemma UncaughtWithoutReadings<T>(feeds: seq<Record<T>>, c: Columns<T>)
    requires Normalize(feeds) == Success(c)
    ensures |c.time| == |c.rssi|
    ensures Present(c).Uncaught? <==> forall i :: 0 <= i < |feeds| ==> !Reported(feeds[i])
  {
    NormalizeRows(feeds);
    SelectedEmpty(feeds);
  }

  /** The rows of a page shown after a successful pass are the records that
      carry a reading, in input order, each with its status. */
  lemma ShownRows<T>(feeds: seq<Record<T>>, c: Columns<T>)
    requires Normalize(feeds) == Success(c)
    ensures |c.time| == |c.rssi|
    ensures var s := Present(c);
            var sel := Selected(feeds);
            s.Shown? ==>
              && |s.frame.rssi| == |sel| > 0
              && forall k :: 0 <= k < |sel| ==>
                   && Usable(feeds[sel[k]])
                   && s.frame.time[k] == feeds[sel[k]].createdAt.value
                   && s.frame.rssi[k] == RssiOf(feeds[sel[k]])
                   && s.frame.status[k] == RssiStatus(s.frame.rssi[k])
  {
    NormalizeRows(feeds);
    var s := Present(c);
    var sel := Selected(feeds);
    assert |c.time| == |c.rssi| == |sel|;
    if s.Shown? {
      assert s.frame.time == c.time && s.frame.rssi == c.rssi;
      forall k | 0 <= k < |sel|
        ensures && Usable(feeds[sel[k]])
                && s.frame.time[k] == feeds[sel[k]].createdAt.value
                && s.frame.rssi[k] == RssiOf(feeds[sel[k]])
                && s.frame.status[k] == RssiStatus(s.frame.rssi[k])
      {
      }
    }
  }

  /** The guarded block after the envelope has been decoded, followed by the
      unguarded read of the latest reading: the normalisation pass over
      `feeds`, then the Status column and the latest reading. */
  function PassOver<T>(feeds: seq<Record<T>>): (s: Screen<T>)
    ensures s.FetchError? <==> exists i :: 0 <= i < |feeds| && Broken(feeds[i])
    ensures s.Uncaught? <==>
              && (forall i :: 0 <= i < |feeds| ==> !Broken(feeds[i]))
              && (forall i :: 0 <= i < |feeds| ==> !Reported(feeds[i]))
    ensures s.Shown? ==> ShowsFeeds(feeds, s)
  {
    var r := Normalize(feeds);
    NormalizeFailure(feeds);
    if r.Failure? then FetchError
    else
      UncaughtWithoutReadings(feeds, r.value);
      ShownRows(feeds, r.value);
      Present(r.value)
  }

  /** One pass. `response` is `None` when the request or the JSON decoding
      raised. */
  function RenderCycle<T>(response: Option<Envelope<T>>): (s: Screen<T>)
    ensures s.FetchError? <==> !Fetched(response)
    ensures s.Uncaught? <==>
              Fetched(response)
              && forall i :: 0 <= i < |response.value.feeds.value| ==> !Reported(response.value.feeds.value[i])
    ensures s.Shown? ==> ShowsFeeds(response.value.feeds.value, s)
  {
    if response.None? || response.value.feeds.None? then FetchError
    else
      PassOver(response.value.feeds.value)
  }

  /** When the guarded block completes with at least one reading, the page is
      shown, and the metric tiles and the last row of the log table report
      the same reading with the same status. */
  lemma {:induction false} LogEndsWithLatest<T>(response: Option<Envelope<T>>, i: nat)
    requires Fetched(response)
    requires i < |response.value.feeds.value| && Reported(response.value.feeds.value[i])
    ensures var s := RenderCycle(response);
            && s.Shown?
            && |s.log.rssi| > 0
            && Latest(s.log.rssi) == s.latestRssi
            && Latest(s.log.status) == s.latestStatus
  {
    var s := RenderCycle(response);
    assert !s.Uncaught?;
    TailKeepsLatest(s.frame.rssi, LogRows);
    TailKeepsLatest(s.frame.status, LogRows);
  }

  /** An empty feed list leaves no latest reading, and the pass ends in the
      uncaught exception rather than in an empty page. */
  lemma EmptyFeedUncaught()
    ensures var empty: seq<Record<string>> := []; RenderCycle(Some(Envelope(Some(empty)))).Uncaught?
  {
  }

  /** A one-record feed list gives the error exactly when its record is
      broken. */
  lemma SingleBroken<T>(f: Record<T>)
    ensures Broken(f) <==> RenderCycle(Some(Envelope(Some([f])))).FetchError?
  {
    var feeds := [f];
    assert feeds[0] == f;
    assert RenderCycle(Some(Envelope(Some(feeds)))) == PassOver(feeds);
  }

  /** A one-record feed list ends uncaught exactly when its record carries
      no reading. */
  lemma SingleUnreported<T>(f: Record<T>)
    ensures !Reported(f) <==> RenderCycle(Some(Envelope(Some([f])))).Uncaught?
  {
    var feeds := [f];
    assert feeds[0] == f;
    assert RenderCycle(Some(Envelope(Some(feeds)))) == PassOver(feeds);
  }

  /** A pass whose guarded block completes shows what `Present` makes of
      the columns it built. */
  lemma PassOverSuccess<T>(feeds: seq<Record<T>>, c: Columns<T>)
    requires Normalize(feeds) == Success(c)
    ensures |c.time| == |c.rssi|
    ensures RenderCycle(Some(Envelope(Some(feeds)))) == Present(c)
  {
  }

  /** A one-record feed list whose record is usable shows that record. */
  lemma SingleUsable<T>(f: Record<T>)
    requires Usable(f)
    ensures var s := RenderCycle(Some(Envelope(Some([f]))));
            s.Shown? && s.latestRssi == RssiOf(f) && s.frame.time == [f.createdAt.value]
  {
    var c := Columns([f.createdAt.value], [RssiOf(f)]);
    NormalizeOne(f);
    PassOverSuccess([f], c);
  }

  /** A pass over a one-record feed list: the record decides the page. */
  lemma SingleRecordPass<T>(f: Record<T>)
    ensures var s := RenderCycle(Some(Envelope(Some([f]))));
            && (Broken(f) <==> s.FetchError?)
            && (!Reported(f) <==> s.Uncaught?)
            && (Usable(f) ==> s.Shown? && s.latestRssi == RssiOf(f) && s.frame.time == [f.createdAt.value])
  {
    SingleBroken(f);
    SingleUnreported(f);
    if Usable(f) {
      SingleUsable(f);
    }
  }

  /** A reading of -50 dBm is shown as Strong. */
  lemma SampleStrong()
    ensures var f := Record(Some(Number(-50.0)), Some("2024-01-01T00:00:00Z"));
            var s := RenderCycle(Some(Envelope(Some([f]))));
            s.Shown? && s.latestRssi == -50 && s.latestStatus == Strong
  {
    TruncWhole(-50);
    SingleRecordPass(Record(Some(Number(-50.0)), Some("2024-01-01T00:00:00Z")));
  }

  /** A reading of -65.9 dBm is truncated toward zero to -65, which is
      Average. */
  lemma SampleAverage()
    ensures var f := Record(Some(Number(-65.9)), Some("T"));
            var s := RenderCycle(Some(Envelope(Some([f]))));
            s.Shown? && s.latestRssi == -65 && s.latestStatus == Average
  {
    assert Trunc(-65.9) == -65;
    SingleRecordPass(Record(Some(Number(-65.9)), Some("T")));
  }

  /** A reading of -80 dBm is shown as Weak. */
  lemma SampleWeak()
    ensures var f := Record(Some(Number(-80.0)), Some("T"));
            var s := RenderCycle(Some(Envelope(Some([f]))));
            s.Shown? && s.latestRssi == -80 && s.latestStatus == Weak
  {
    TruncWhole(-80);
    SingleRecordPass(Record(Some(Number(-80.0)), Some("T")));
  }

  /** A record with a non-numeric reading, or with a reading and no
      timestamp, ends the pass in the error message; it is not skipped. */
  lemma SampleFailures()
    ensures RenderCycle(Some(Envelope(Some([Record(Some(Malformed("n/a")), Some("T"))])))).FetchError?
    ensures var noTime: Option<string> := None;
            RenderCycle(Some(Envelope(Some([Record(Some(Number(-80.0)), noTime)])))).FetchError?
  {
    SingleRecordPass(Record(Some(Malformed("n/a")), Some("T")));
    var noTime: Option<string> := None;
    SingleRecordPass(Record(Some(Number(-80.0)), noTime));
  }
}
