/** The "people in front of the class" counting game (`model.game`): a count
    of people out of a fixed class size, shown as a fraction. */
module Game {
  import opened Wrappers
  import opened JsText
  import opened Fractions

  /** `x` raised to `lo` if below it, then lowered to `hi` if above it. */
  function Clamp(x: int, lo: int, hi: int): (r: int)
    requires lo <= hi
    ensures lo <= r <= hi
    ensures lo <= x <= hi ==> r == x
    ensures x < lo ==> r == lo
    ensures x > hi ==> r == hi
  {
    var raised := if x < lo then lo else x;
    if raised > hi then hi else raised
  }

  class PeopleGame {
    /** The class size, never changed. */
    const totalPeople: nat := 8
    /** The people standing in front; outside `updatePeople` always in `[0, totalPeople]`. */
    var frontPeople: int

    ghost predicate Valid()
      reads this
    {
      0 <= frontPeople <= totalPeople
    }

    constructor ()
      ensures Valid() && frontPeople == 0 && totalPeople == 8
    {
      frontPeople := 0;
    }

    /** `updatePeople(change)`: add `change`, then clamp into `[0, totalPeople]`,
        and return the new count. */
    method UpdatePeople(change: int) returns (count: int)
      modifies this
      ensures frontPeople == Clamp(old(frontPeople) + change, 0, totalPeople)
      ensures count == frontPeople && Valid()
    {
      frontPeople := frontPeople + change;
      if frontPeople < 0 {
        frontPeople := 0;
      }
      if frontPeople > totalPeople {
        frontPeople := totalPeople;
      }
      count := frontPeople;
    }

    /** `calculateFraction()`: the text "front/total", in the accepted format
        and reading back as exactly those two numbers. */
    function CalculateFraction(): (r: string)
      reads this
      requires Valid()
      ensures IsValidFormat(r)
      ensures NumberPair(r) == Some((frontPeople as nat, totalPeople))
      ensures CanonicalPieces(r)
    {
      FormatFractionRoundTrip(frontPeople, totalPeople);
      FormatFraction(frontPeople, totalPeople)
    }

    /** `simplifyFraction()`: the game's fraction in lowest terms, with the
        same value as front/total. */
    function SimplifyFraction(): (r: string)
      reads this
      requires Valid()
      ensures IsValidFormat(r)
      ensures var pq := NumberPair(r);
        pq.Some? && pq.value.0 * totalPeople == pq.value.1 * frontPeople && Gcd(pq.value.0, pq.value.1) == 1
      ensures CanonicalPieces(r)
    {
      SimplifyLowestTerms(CalculateFraction(), frontPeople, totalPeople);
      Simplify(CalculateFraction())
    }
  }
}
