/**
 * The "predicted" next rating: the current rating plus a uniformly drawn offset.
 * The draw `Math.floor(Math.random() * 100)` is taken as an integer parameter.
 */
module Rating {

  /** A possible value of `Math.floor(Math.random() * 100)`, with the random number in [0, 1). */
  predicate IsDraw(draw: int) {
    0 <= draw < 100
  }

  /** `randomFactor`: the draw shifted down by 50. */
  function RandomFactor(draw: int): (offset: int)
    requires IsDraw(draw)
    ensures -50 <= offset <= 49
  {
    draw - 50
  }

  /**
   * `currentRating + randomFactor`: never more than 50 below the current rating and
   * at most 49 above it (no clamping, so it may be negative).
   */
  function PredictedRating(currentRating: int, draw: int): (predicted: int)
    requires IsDraw(draw)
    ensures currentRating - 50 <= predicted <= currentRating + 49
    ensures predicted != currentRating + 50
  {
    currentRating + RandomFactor(draw)
  }

  /** Every value in [R - 50, R + 49] is the prediction for exactly one draw. */
  lemma EveryValueInRangeIsPredicted(currentRating: int, value: int)
    requires currentRating - 50 <= value <= currentRating + 49
    ensures exists draw :: IsDraw(draw) && PredictedRating(currentRating, draw) == value
    ensures forall draw :: IsDraw(draw) && PredictedRating(currentRating, draw) == value ==> draw == value - currentRating + 50
  {
    var draw := value - currentRating + 50;
    assert IsDraw(draw) && PredictedRating(currentRating, draw) == value;
  }

  /** The lowest and highest draws give the two ends of the range. */
  lemma PredictionExtremes(currentRating: int)
    ensures PredictedRating(currentRating, 0) == currentRating - 50
    ensures PredictedRating(currentRating, 99) == currentRating + 49
  {
  }
}
