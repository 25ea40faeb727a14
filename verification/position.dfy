/** The side-of-component constants of `geomgraph/Position.java`. */
module Position {

  const ON: int := 0
  const LEFT: int := 1
  const RIGHT: int := 2

  /** Swaps LEFT and RIGHT; every other value, ON included, is returned as is. */
  function Opposite(position: int): (r: int)
    ensures position == LEFT ==> r == RIGHT
    ensures position == RIGHT ==> r == LEFT
    ensures position != LEFT && position != RIGHT ==> r == position
  {
    if position == LEFT then RIGHT
    else if position == RIGHT then LEFT
    else position
  }

  /** `Opposite` is an involution, and fixes exactly the values other than LEFT and RIGHT. */
  lemma OppositeInvolution(position: int)
    ensures Opposite(Opposite(position)) == position
    ensures Opposite(position) == position <==> position != LEFT && position != RIGHT
  {
  }

  /** ON, LEFT and RIGHT are the distinct values 0, 1 and 2. */
  lemma ConstantsDistinct()
    ensures ON != LEFT && LEFT != RIGHT && ON != RIGHT
    ensures {ON, LEFT, RIGHT} == {0, 1, 2}
  {
  }
}
