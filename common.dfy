/** Values shared by every visualizer: optional values, node and connection
    identifiers, and canvas positions. */
module Common {

  datatype Option<T> = None | Some(value: T)

  /** The identifier string `node-<n>`; two identifiers are equal exactly
      when their numbers are. */
  datatype NodeId = NodeId(n: nat)

  /** The identifier string `conn-<n>` of a directed-graph connection. */
  datatype ConnId = ConnId(n: nat)

  /** A position on a canvas, in the canvas's own (world) coordinates. */
  datatype Point = Point(x: real, y: real)
}
