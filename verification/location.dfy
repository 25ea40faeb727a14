/**
 * The topological location constants of `geom/Location.java` and their
 * one-character symbols.
 */
module Location {
  import opened Results

  const INTERIOR: int := 0
  const BOUNDARY: int := 1
  const EXTERIOR: int := 2
  const NONE: int := -1

  /** Raised for a value that is none of the four location constants. */
  datatype LocationError = UnknownLocationValue(value: int)

  /**
   * The symbol of a location value; any value other than the four constants
   * is an `IllegalArgumentException`.
   */
  function ToLocationSymbol(v: int): (r: Result<char, LocationError>)
    ensures v == INTERIOR <==> r == Ok('i')
    ensures v == BOUNDARY <==> r == Ok('b')
    ensures v == EXTERIOR <==> r == Ok('e')
    ensures v == NONE <==> r == Ok('-')
    ensures r.Err? <==> v !in {INTERIOR, BOUNDARY, EXTERIOR, NONE}
    ensures r.Err? ==> r.error == UnknownLocationValue(v)
  {
    if v == EXTERIOR then Ok('e')
    else if v == BOUNDARY then Ok('b')
    else if v == INTERIOR then Ok('i')
    else if v == NONE then Ok('-')
    else Err(UnknownLocationValue(v))
  }

  /**
   * The four constants are distinct, the three proper locations index a
   * three-element array (a DE-9IM row or column), and the symbol map is
   * injective on the four constants.
   */
  lemma ConstantsDistinctAndIndexable()
    ensures |{INTERIOR, BOUNDARY, EXTERIOR, NONE}| == 4
    ensures 0 <= INTERIOR < 3 && 0 <= BOUNDARY < 3 && 0 <= EXTERIOR < 3
    ensures forall v, w ::
              (v in {INTERIOR, BOUNDARY, EXTERIOR, NONE} && w in {INTERIOR, BOUNDARY, EXTERIOR, NONE}
               && ToLocationSymbol(v) == ToLocationSymbol(w)) ==> v == w
  {
    assert {INTERIOR, BOUNDARY, EXTERIOR, NONE} == {0, 1, 2, -1};
    assert |{0, 1, 2} + {-1}| == 4;
  }
}
