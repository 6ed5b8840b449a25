/**
 Signal-strength classification of the RSSI dashboard.

 An RSSI reading (in dBm, an integer) is banded into one of three ordered
 categories. The dashboard shows them as the labels "Strong", "Average" and
 "Weak" (each prefixed with a coloured emoji); here they are the constructors
 of `Status`.
 */
module Signal {

  datatype Status = Weak | Average | Strong

  /** Position of a status in the order Weak < Average < Strong. */
  function Rank(s: Status): (k: nat)
    ensures k <= 2
    ensures s == Weak <==> k == 0
    ensures s == Strong <==> k == 2
  {
    match s
    case Weak => 0
    case Average => 1
    case Strong => 2
  }

  /** The three bands the classifier puts into effect. */
  predicate InStrongBand(rssi: int) { rssi >= -55 }
  predicate InAverageBand(rssi: int) { -70 <= rssi <= -56 }
  predicate InWeakBand(rssi: int) { rssi < -70 }

  /** The bands cover every integer and no two of them share one. */
  lemma BandsPartition(rssi: int)
    ensures InStrongBand(rssi) || InAverageBand(rssi) || InWeakBand(rssi)
    ensures !(InStrongBand(rssi) && InAverageBand(rssi))
    ensures !(InStrongBand(rssi) && InWeakBand(rssi))
    ensures !(InAverageBand(rssi) && InWeakBand(rssi))
  {
  }

  /** The classifier as the dashboard writes it: the Average branch tests
      `-70 <= rssi < -50`, but every reading at or above -55 has already been
      taken by the first branch. The contract states the bands that take
      effect, so the classifier picks exactly one status for every integer. */
  function RssiStatus(rssi: int): (s: Status)
    ensures s == Strong <==> InStrongBand(rssi)
    ensures s == Average <==> InAverageBand(rssi)
    ensures s == Weak <==> InWeakBand(rssi)
  {
    if rssi >= -55 then Strong
    else if -70 <= rssi < -50 then Average
    else Weak
  }

  /** The classification rule with the Average upper edge at `< -55`. */
  function CanonicalStatus(rssi: int): Status
  {
    if rssi >= -55 then Strong
    else if -70 <= rssi < -55 then Average
    else Weak
  }

  /** The `< -50` upper edge never takes effect: the classifier as written
      agrees with the `< -55` rule on every integer. */
  lemma DeadUpperEdge(rssi: int)
    ensures RssiStatus(rssi) == CanonicalStatus(rssi)
  {
  }

  /** A stronger signal never gets a lower status. */
  lemma StatusMonotone(r1: int, r2: int)
    requires r1 <= r2
    ensures Rank(RssiStatus(r1)) <= Rank(RssiStatus(r2))
  {
  }
}
