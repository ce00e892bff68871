/** The time-series point shared by the y-domain and the tooltip code. */
module Points {

  /** A JavaScript number as the chart code sees it: finite, or one of
      NaN, Infinity, -Infinity (which `isFinite` rejects). */
  datatype Num = Finite(v: real) | NonFinite

  /** A point of a series: its time in milliseconds since the epoch and its
      value. Qualifiers are not part of this model. */
  datatype Point = Point(dateTime: int, value: Num)
}
