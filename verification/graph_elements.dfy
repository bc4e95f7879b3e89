/**
 * The host graph's elements as the import processor and the visualisation
 * see them: nodes and edges with their visual properties, their label
 * text properties and their attribute values by column id.
 */
module Elements {
  import opened Wrappers
  import opened Numbers

  /** A colour as its red, green, blue and alpha components. */
  datatype Color = Color(r: real, g: real, b: real, alpha: real)

  /** An attribute value. */
  datatype Value = IntValue(i: int) | RealValue(x: real) | BoolValue(b: bool) | StringValue(s: string)

  /** The label's text properties of a node or an edge. */
  class TextProperties {
    var visible: bool
    var r: real
    var g: real
    var b: real
    var alpha: real
    var size: real
    var text: Option<string>
  }

  class Node {
    var r: real
    var g: real
    var b: real
    var alpha: real
    var labelText: Option<string>
    var x: real
    var y: real
    var z: real
    /** The size is a float, which may be NaN or infinite. */
    var size: Double
    var textProperties: TextProperties?
    var attributes: map<string, Value>
  }

  class Edge {
    var r: real
    var g: real
    var b: real
    var alpha: real
    var labelText: Option<string>
    var textProperties: TextProperties?
    var attributes: map<string, Value>
  }
}
