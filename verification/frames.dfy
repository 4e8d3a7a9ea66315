/**
 * The slice of Grafana's data-frame model the plugin fills in: a frame is a
 * name and a list of named fields, each field a column of times or of float64s.
 */
module Frames {
  import opened Calendar

  /** A float64 rate, carried as its IEEE 754 bit pattern: rates are only moved, never computed on. */
  type Float64 = bv64

  /** Go's zero value for float64 (0.0), whose bit pattern is all zeros. */
  const ZERO: Float64 := 0

  datatype Values = Times(times: seq<Instant>) | Floats(floats: seq<Float64>)

  /** `data.NewField(name, nil, values)`; labels are always nil here. */
  datatype Field = Field(name: string, values: Values)

  datatype Frame = Frame(name: string, fields: seq<Field>)

  /** Every frame the plugin builds is created by `data.NewFrame("response")`. */
  const FRAME_NAME: string := "response"
}
