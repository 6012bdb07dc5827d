/** The Localizacao entity, its two reservation-counter adjustments and the
    availability filter the list endpoint applies. */
module Locations {
  import opened Wrappers

  /** The opaque identifier the store assigns to a saved location. */
  type Id = string

  /** A parking spot: the address pair `(endereco, numero)`, its total number
      of slots and the number reserved. `id` is absent (null) on a record that
      has not been saved yet. The counters are unbounded integers; Java's
      32-bit wrap-around is not modelled. */
  datatype Location = Location(
    id: Option<Id>,
    endereco: string,
    numero: string,
    qtdTotais: int,
    qtdReservada: int)

  /** The errors the controller raises itself; both are reported as a bad
      request. */
  datatype Error =
    | InvalidId   // update of a record that carries no id
    | NotFound    // cancellation for an address pair no stored record has

  /** The availability test of the list endpoint: strictly more slots than
      reservations. */
  predicate HasSpareCapacity(l: Location) {
    l.qtdTotais > l.qtdReservada
  }

  /** The composite key the cancellation looks a record up by. */
  predicate AtAddress(l: Location, endereco: string, numero: string) {
    l.endereco == endereco && l.numero == numero
  }

  /** A reservation: one more slot taken, whatever the capacity. */
  function Reserved(l: Location): Location {
    l.(qtdReservada := l.qtdReservada + 1)
  }

  /** A release: one slot fewer taken, with no floor at zero. */
  function Released(l: Location): Location {
    l.(qtdReservada := l.qtdReservada - 1)
  }

  /** On one record, reserving and releasing are inverses, and both touch
      nothing but the reserved counter. */
  lemma ReserveReleaseRoundTrip(l: Location)
    ensures Released(Reserved(l)) == l && Reserved(Released(l)) == l
    ensures Reserved(l).(qtdReservada := l.qtdReservada) == l
    ensures Released(l).(qtdReservada := l.qtdReservada) == l
  {
  }

  /** A reservation is not bounded by the capacity: reserving a record with
      no spare slot overbooks it. */
  lemma ReserveCanOverbook(l: Location)
    requires !HasSpareCapacity(l)
    ensures Reserved(l).qtdReservada > Reserved(l).qtdTotais
  {
  }

  /** A release is not bounded by zero: releasing a record with nothing
      reserved makes the counter negative. */
  lemma ReleaseHasNoFloor(l: Location)
    requires l.qtdReservada <= 0
    ensures Released(l).qtdReservada < 0
  {
  }

  /** The records of `s` that have spare capacity, in the order of `s`: the
      loop of the list endpoint. Nothing it returns is missing from `s` or
      lacks a free slot, and it never returns more records than `s` has. */
  function Available(s: seq<Location>): (r: seq<Location>)
    ensures |r| <= |s|
    ensures forall x :: x in r ==> x in s && HasSpareCapacity(x)
  {
    if s == [] then []
    else (if HasSpareCapacity(s[0]) then [s[0]] else []) + Available(s[1..])
  }

  /** The filter works piecewise, so it keeps the relative order of the
      records it retains: those from an earlier part come first. */
  lemma {:induction false} AvailableAppend(a: seq<Location>, b: seq<Location>)
    ensures Available(a + b) == Available(a) + Available(b)
  {
    if a == [] {
      assert a + b == b;
    } else {
      assert (a + b)[1..] == a[1..] + b;
      AvailableAppend(a[1..], b);
    }
  }

  /** Exactly the records of `s` with spare capacity survive the filter:
      nothing is invented and no qualifying record is dropped. */
  lemma {:induction false} AvailableMembership(s: seq<Location>, l: Location)
    ensures l in Available(s) <==> l in s && HasSpareCapacity(l)
  {
    if s != [] {
      assert s == [s[0]] + s[1..];
      AvailableMembership(s[1..], l);
    }
  }

  /** The comparison is strict: a fully booked record is dropped, one with a
      free slot is kept. */
  lemma StrictCapacityBoundary(s: seq<Location>, l: Location)
    requires l in s
    ensures l.qtdTotais == l.qtdReservada ==> l !in Available(s)
    ensures l.qtdTotais > l.qtdReservada ==> l in Available(s)
  {
    AvailableMembership(s, l);
  }
}
