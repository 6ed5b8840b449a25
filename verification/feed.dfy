/**
 Normalisation of the telemetry feed.

 The telemetry service answers with a list of feed records, each a JSON
 object whose `field1` holds the RSSI reading and whose `created_at` holds
 the time of the sample. The dashboard walks the list once, in order, and
 builds two parallel columns, Time and RSSI. A record whose `field1` is
 absent or null is passed over; any other record must yield a number and a
 timestamp, and if it does not, the exception ends the whole pass.
 */
module Feed {
  import opened Results

  /** The value held under `field1`, as far as the dashboard can tell it
      apart. `Number(x)` is a value that converts to the finite float `x`;
      `Malformed` is one whose conversion to an integer raises (text that is
      not a number, or a float that is not finite). */
  datatype FieldValue = Null | Number(x: real) | Malformed(raw: string)

  /** One feed record. `None` stands for a key the object does not have.
      The timestamp is opaque: it is carried into the Time column as it is,
      whatever it holds. */
  datatype Record<T> = Record(field1: Option<FieldValue>, createdAt: Option<T>)

  /** The two parallel columns the pass produces, oldest sample first. */
  datatype Columns<T> = Columns(time: seq<T>, rssi: seq<int>)

  /** Why a pass ended early, with the position of the offending record:
      its `field1` did not convert to an integer, or it has no `created_at`. */
  datatype Abort = BadNumber(at: nat) | MissingCreatedAt(at: nat)

  /** The record carries a reading: `field1` is present and not null. */
  predicate Reported<T>(f: Record<T>)
  {
    f.field1.Some? && !f.field1.value.Null?
  }

  /** The record yields a row: a numeric `field1` and a `created_at`. */
  predicate Usable<T>(f: Record<T>)
  {
    f.field1.Some? && f.field1.value.Number? && f.createdAt.Some?
  }

  /** A record that carries a reading but cannot be turned into a row. */
  predicate Broken<T>(f: Record<T>)
  {
    Reported(f) && !Usable(f)
  }

  /** Conversion of a float to an integer, which drops the fractional part
      and so rounds toward zero on both sides of it. */
  function Trunc(x: real): (n: int)
    ensures 0.0 <= x ==> n as real <= x < n as real + 1.0
    ensures x < 0.0 ==> n as real - 1.0 < x <= n as real
  {
    if x >= 0.0 then x.Floor else -((-x).Floor)
  }

  /** A whole number converts to itself. */
  lemma TruncWhole(n: int)
    ensures Trunc(n as real) == n
  {
  }

  /** The RSSI a usable record contributes. */
  function RssiOf<T>(f: Record<T>): int
    requires Usable(f)
  {
    Trunc(f.field1.value.x)
  }

  /** The error a broken record raises. The number is converted before the
      timestamp is read, so a record that fails both reports the number. */
  function FaultOf<T>(f: Record<T>, at: nat): Abort
    requires Broken(f)
  {
    if !f.field1.value.Number? then BadNumber(at) else MissingCreatedAt(at)
  }

  /** The positions of the records that carry a reading, in ascending order:
      exactly the records the pass turns into rows. */
  function Selected<T>(feeds: seq<Record<T>>): (idx: seq<nat>)
    ensures forall k :: 0 <= k < |idx| ==> idx[k] < |feeds| && Reported(feeds[idx[k]])
    ensures forall k, l :: 0 <= k < l < |idx| ==> idx[k] < idx[l]
    ensures forall i :: 0 <= i < |feeds| && Reported(feeds[i]) ==> i in idx
  {
    if |feeds| == 0 then []
    else
      var last := |feeds| - 1;
      var front := Selected(feeds[..last]);
      assert forall k :: 0 <= k < |front| ==> feeds[front[k]] == feeds[..last][front[k]];
      if Reported(feeds[last]) then front + [last] else front
  }

  /** Nothing is selected exactly when no record carries a reading. */
  lemma SelectedEmpty<T>(feeds: seq<Record<T>>)
    ensures |Selected(feeds)| == 0 <==> forall i :: 0 <= i < |feeds| ==> !Reported(feeds[i])
  {
    var sel := Selected(feeds);
    if |sel| > 0 {
      assert Reported(feeds[sel[0]]);
    }
  }

  /** One pass over the feed list, as the dashboard's loop performs it,
      record by record from the oldest. Whenever it succeeds, the two columns
      it builds are parallel. */
  function Normalize<T>(feeds: seq<Record<T>>): (r: Result<Columns<T>, Abort>)
    ensures r.Success? ==> |r.value.time| == |r.value.rssi|
  {
    if |feeds| == 0 then Success(Columns([], []))
    else
      var last := |feeds| - 1;
      var f := feeds[last];
      var front := Normalize(feeds[..last]);
      if front.Failure? then front
      else if !Reported(f) then front
      else if !f.field1.value.Number? then Failure(BadNumber(last))
      else if f.createdAt.None? then Failure(MissingCreatedAt(last))
      else
        Success(Columns(front.value.time + [f.createdAt.value],
                        front.value.rssi + [Trunc(f.field1.value.x)]))
  }

  /** When a pass fails: exactly when some record carrying a reading is
      broken, and then at the first such record, with the error it raises. */
  lemma {:induction false} NormalizeFailure<T>(feeds: seq<Record<T>>)
    ensures var r := Normalize(feeds);
      && (r.Failure? <==> exists i :: 0 <= i < |feeds| && Broken(feeds[i]))
      && (r.Failure? ==>
            var at := r.error.at;
            && at < |feeds|
            && Broken(feeds[at])
            && r.error == FaultOf(feeds[at], at)
            && forall j :: 0 <= j < at ==> !Broken(feeds[j]))
    decreases |feeds|
  {
    if |feeds| > 0 {
      var last := |feeds| - 1;
      NormalizeFailure(feeds[..last]);
      assert forall j :: 0 <= j < last ==> feeds[..last][j] == feeds[j];
      var front := Normalize(feeds[..last]);
      if front.Failure? {
        assert feeds[..last][front.error.at] == feeds[front.error.at];
      }
    }
  }

  /** What a successful pass holds: in input order, one row per record that
      carries a reading, with that record's timestamp and truncated reading. */
  lemma {:induction false} NormalizeRows<T>(feeds: seq<Record<T>>)
    ensures var r := Normalize(feeds);
      r.Success? ==>
        var sel := Selected(feeds);
        && |r.value.time| == |sel|
        && |r.value.rssi| == |sel|
        && forall k :: 0 <= k < |sel| ==>
             && Usable(feeds[sel[k]])
             && r.value.time[k] == feeds[sel[k]].createdAt.value
             && r.value.rssi[k] == RssiOf(feeds[sel[k]])
    decreases |feeds|
  {
    if |feeds| > 0 && Normalize(feeds).Success? {
      var last := |feeds| - 1;
      var f := feeds[last];
      NormalizeRows(feeds[..last]);
      assert forall j :: 0 <= j < last ==> feeds[..last][j] == feeds[j];
      assert Normalize(feeds[..last]).Success?;
      var c := Normalize(feeds[..last]).value;
      var r := Normalize(feeds).value;
      if Reported(f) {
        assert Usable(f);
        assert r == Columns(c.time + [f.createdAt.value], c.rssi + [RssiOf(f)]);
        assert Selected(feeds) == Selected(feeds[..last]) + [last];
      } else {
        assert r == c;
        assert Selected(feeds) == Selected(feeds[..last]);
      }
    }
  }

  /** What a pass computes. It succeeds exactly when no record carrying a
      reading is broken; the columns then hold, in input order, one row per
      such record. Otherwise it fails at the first broken record, with the
      error that record raises. */
  lemma NormalizeSpec<T>(feeds: seq<Record<T>>)
    ensures var r := Normalize(feeds);
      && (r.Failure? <==> exists i :: 0 <= i < |feeds| && Broken(feeds[i]))
      && (r.Failure? ==>
            var at := r.error.at;
            && at < |feeds|
            && Broken(feeds[at])
            && r.error == FaultOf(feeds[at], at)
            && forall j :: 0 <= j < at ==> !Broken(feeds[j]))
      && (r.Success? ==>
            var sel := Selected(feeds);
            && |r.value.time| == |sel|
            && |r.value.rssi| == |sel|
            && forall k :: 0 <= k < |sel| ==>
                 && Usable(feeds[sel[k]])
                 && r.value.time[k] == feeds[sel[k]].createdAt.value
                 && r.value.rssi[k] == RssiOf(feeds[sel[k]]))
  {
    NormalizeFailure(feeds);
    NormalizeRows(feeds);
  }

  /** A list of one usable record passes to one row holding that record. */
  lemma NormalizeOne<T>(f: Record<T>)
    requires Usable(f)
    ensures Normalize([f]) == Success(Columns([f.createdAt.value], [RssiOf(f)]))
  {
    assert [f][..0] == [];
    assert Normalize([f][..0]) == Success(Columns([], []));
    assert [] + [f.createdAt.value] == [f.createdAt.value] && [] + [RssiOf(f)] == [RssiOf(f)];
  }

  /** Extending the list by one record extends the pass by one step. */
  lemma NormalizeSnoc<T>(feeds: seq<Record<T>>, i: nat)
    requires i < |feeds|
    requires Normalize(feeds[..i]).Success?
    ensures var c := Normalize(feeds[..i]).value;
            var f := feeds[i];
            Normalize(feeds[..i + 1]) ==
              if !Reported(f) then Success(c)
              else if !f.field1.value.Number? then Failure(BadNumber(i))
              else if f.createdAt.None? then Failure(MissingCreatedAt(i))
              else Success(Columns(c.time + [f.createdAt.value], c.rssi + [Trunc(f.field1.value.x)]))
  {
    assert feeds[..i + 1][..i] == feeds[..i];
  }

  /** Once a prefix of the list fails, the whole list fails the same way. */
  lemma FailurePersists<T>(feeds: seq<Record<T>>, n: nat)
    requires n <= |feeds|
    requires Normalize(feeds[..n]).Failure?
    ensures Normalize(feeds) == Normalize(feeds[..n])
  {
    var p := feeds[..n];
    NormalizeSpec(p);
    NormalizeSpec(feeds);
    var e := Normalize(p).error;
    var at := e.at;
    assert p[at] == feeds[at];
    assert Broken(feeds[at]);
    var r := Normalize(feeds);
    assert r.Failure?;
    assert forall j :: 0 <= j < at ==> p[j] == feeds[j];
    assert r.error.at == at;
    assert r.error == FaultOf(feeds[at], at) == e;
  }

  /** The loop of the dashboard, statement for statement: it appends to the
      two columns as it goes and stops at the first record that raises. */
  method NormalizeFeeds<T>(feeds: seq<Record<T>>) returns (r: Result<Columns<T>, Abort>)
    ensures r == Normalize(feeds)
  {
    var time: seq<T> := [];
    var rssi: seq<int> := [];
    var i := 0;
    while i < |feeds|
      invariant 0 <= i <= |feeds|
      invariant Normalize(feeds[..i]) == Success(Columns(time, rssi))
    {
      var f := feeds[i];
      NormalizeSnoc(feeds, i);
      if f.field1.Some? && !f.field1.value.Null? {
        if !f.field1.value.Number? {
          FailurePersists(feeds, i + 1);
          return Failure(BadNumber(i));
        }
        rssi := rssi + [Trunc(f.field1.value.x)];
        if f.createdAt.None? {
          FailurePersists(feeds, i + 1);
          return Failure(MissingCreatedAt(i));
        }
        time := time + [f.createdAt.value];
      }
      i := i + 1;
    }
    assert feeds[..i] == feeds;
    return Success(Columns(time, rssi));
  }

  /** Turns columns back into feed records, one record per row with the
      reading written as a number. */
  function Denormalize<T>(c: Columns<T>): (feeds: seq<Record<T>>)
    requires |c.time| == |c.rssi|
    ensures |feeds| == |c.rssi|
    ensures forall i :: 0 <= i < |feeds| ==> Usable(feeds[i]) && RssiOf(feeds[i]) == c.rssi[i]
  {
    seq(|c.rssi|, i requires 0 <= i < |c.rssi| => Record(Some(Number(c.rssi[i] as real)), Some(c.time[i])))
  }

  /** When every record carries a reading, the pass selects all of them. */
  lemma {:induction false} SelectedAll<T>(feeds: seq<Record<T>>)
    requires forall i :: 0 <= i < |feeds| ==> Reported(feeds[i])
    ensures |Selected(feeds)| == |feeds|
    ensures forall k :: 0 <= k < |feeds| ==> Selected(feeds)[k] == k
  {
    if |feeds| > 0 {
      var last := |feeds| - 1;
      var front := feeds[..last];
      assert forall i :: 0 <= i < last ==> front[i] == feeds[i];
      SelectedAll(front);
      var s := Selected(front);
      assert Reported(feeds[last]);
      var r := Selected(feeds);
      assert r == s + [last];
      forall k | 0 <= k < |feeds|
        ensures r[k] == k
      {
        if k < last {
          assert r[k] == s[k];
        }
      }
    }
  }

  /** Normalising is idempotent: columns written back as records normalise
      to the same columns. */
  lemma {:induction false} NormalizeDenormalize<T>(c: Columns<T>)
    requires |c.time| == |c.rssi|
    ensures Normalize(Denormalize(c)) == Success(c)
  {
    var feeds := Denormalize(c);
    SelectedAll(feeds);
    NormalizeSpec(feeds);
    var r := Normalize(feeds);
    assert r.Success?;
    assert r.value.time == c.time;
    assert r.value.rssi == c.rssi;
  }

  /** A record without a reading appended to the end leaves the outcome of
      a successful pass unchanged. */
  lemma {:induction false} UnreportedIgnored<T>(feeds: seq<Record<T>>, extra: Record<T>)
    requires !Reported(extra)
    requires Normalize(feeds).Success?
    ensures Normalize(feeds + [extra]) == Normalize(feeds)
  {
    assert (feeds + [extra])[..|feeds|] == feeds;
  }

  /** Two lists that pass the same way up to their last record, and end in
      the same record, pass the same way when the second one succeeds. */
  lemma SameLastRecord<T>(a: seq<Record<T>>, b: seq<Record<T>>)
    requires |a| > 0 && |b| > 0
    requires Normalize(a[..|a| - 1]) == Normalize(b[..|b| - 1])
    requires a[|a| - 1] == b[|b| - 1]
    requires Normalize(b).Success?
    ensures Normalize(a) == Normalize(b)
  {
    var front := Normalize(b[..|b| - 1]);
    var f := b[|b| - 1];
    assert front.Success?;
    if Reported(f) {
      assert f.field1.value.Number? && f.createdAt.Some?;
    }
  }

  /** A successful pass stays successful without its last record. */
  lemma FrontSucceeds<T>(feeds: seq<Record<T>>)
    requires |feeds| > 0
    requires Normalize(feeds).Success?
    ensures Normalize(feeds[..|feeds| - 1]).Success?
  {
    var front := feeds[..|feeds| - 1];
    NormalizeSpec(front);
    NormalizeSpec(feeds);
    assert forall j :: 0 <= j < |front| ==> front[j] == feeds[j];
  }

  /** Inserting an entry before the last one keeps the last entry last,
      and the rest is the insertion into the list without it. */
  lemma InsertSplit<X>(s: seq<X>, k: nat, x: X)
    requires k < |s|
    ensures var g := s[..k] + [x] + s[k..];
            && |g| == |s| + 1
            && g[..|g| - 1] == s[..|s| - 1][..k] + [x] + s[..|s| - 1][k..]
            && g[|g| - 1] == s[|s| - 1]
  {
    var g := s[..k] + [x] + s[k..];
    var h := s[..|s| - 1][..k] + [x] + s[..|s| - 1][k..];
    assert |g[..|g| - 1]| == |h|;
    forall i | 0 <= i < |h|
      ensures g[i] == h[i]
    {
    }
  }

  /** Inserting before the last record: the record is then skipped within
      the list without its last record, which that record follows. */
  lemma InsertBeforeLast<T>(feeds: seq<Record<T>>, k: nat, extra: Record<T>)
    requires k < |feeds|
    requires Normalize(feeds).Success?
    requires var front := feeds[..|feeds| - 1];
             Normalize(front[..k] + [extra] + front[k..]) == Normalize(front)
    ensures Normalize(feeds[..k] + [extra] + feeds[k..]) == Normalize(feeds)
  {
    var g := feeds[..k] + [extra] + feeds[k..];
    var front := feeds[..|feeds| - 1];
    assert |g| > 0 && g[..|g| - 1] == front[..k] + [extra] + front[k..] && g[|g| - 1] == feeds[|feeds| - 1] by {
      InsertSplit(feeds, k, extra);
    }
    assert Normalize(g[..|g| - 1]) == Normalize(front);
    SameLastRecord(g, feeds);
  }

  /** A record without a reading inserted at any position leaves the outcome
      of a successful pass unchanged: the loop skips it wherever it stands. */
  lemma {:induction false} UnreportedIgnoredAnywhere<T>(feeds: seq<Record<T>>, k: nat, extra: Record<T>)
    requires k <= |feeds|
    requires !Reported(extra)
    requires Normalize(feeds).Success?
    ensures Normalize(feeds[..k] + [extra] + feeds[k..]) == Normalize(feeds)
    decreases |feeds|
  {
    if k == |feeds| {
      assert feeds[..k] + [extra] + feeds[k..] == feeds + [extra];
      UnreportedIgnored(feeds, extra);
    } else {
      FrontSucceeds(feeds);
      UnreportedIgnoredAnywhere(feeds[..|feeds| - 1], k, extra);
      InsertBeforeLast(feeds, k, extra);
    }
  }
}
