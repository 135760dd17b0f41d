/** `MathUtil.clamp(value, min, max)`, whose source is not part of this
    model: a value below `min` becomes `min`, above `max` becomes `max`.
    When `min > max` the lower bound is checked first. */
module MathUtil {
  function Clamp(value: int, min: int, max: int): (r: int)
    ensures min <= max ==> min <= r <= max
    ensures min <= value <= max ==> r == value
    ensures value < min ==> r == min
  {
    if value < min then min else if value > max then max else value
  }
}
