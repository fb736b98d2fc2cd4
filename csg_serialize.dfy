/**
 * `serializeFlattenedNode` of the Loro revision: the 32-slot record of a
 * flattened node, whose index group holds `child1`, `child2`, `parentIndex`
 * and `flattenedIndex`.
 */
module CsgSerialize {
  import opened Common
  import opened Geometry
  import opened GpuRecord
  import opened CsgModel
  import opened CsgFlattenPass

  /** The record of a flattened node: an operation is kind 0 with the identity matrix, a leaf kind 1 with its transform. */
  function Record(f: FlatNode): seq<real>
  {
    var links := (f.child1 as real, f.child2 as real, f.parentIndex as real, f.flattenedIndex as real);
    match f.node.data
    case OperationNode(_, box, op, smoothing) =>
      Pack(0.0, OpCode(op), smoothing, box, links.0, links.1, links.2, links.3, Identity)
    case LeafNode(_, box, transform, scale) =>
      Pack(1.0, scale, 0.0, box, links.0, links.1, links.2, links.3, transform)
  }

  /**
   * What a shader reads back from a record: the kind slot tells the two
   * kinds apart, the operation code reads back as the operation, and the
   * box, the four links and the matrix sit in their slots.
   */
  lemma RecordFields(f: FlatNode)
    ensures var r := Record(f);
      |r| == RecordSize
      && (r[0] == 0.0 <==> f.node.data.OperationNode?) && (r[0] == 1.0 <==> f.node.data.LeafNode?)
      && (f.node.data.OperationNode? ==> OpFromCode(r[1]) == Some(f.node.data.op) && r[2] == f.node.data.smoothing)
      && (f.node.data.LeafNode? ==> r[1] == f.node.data.scale && r[2] == 0.0)
      && Vec3(r[4], r[5], r[6]) == f.node.data.aabb.min && Vec3(r[8], r[9], r[10]) == f.node.data.aabb.max
      && r[3] == 0.0 && r[7] == 0.0 && r[11] == 0.0
      && r[12] == f.child1 as real && r[13] == f.child2 as real
      && r[14] == f.parentIndex as real && r[15] == f.flattenedIndex as real
      && r[16..32] == (if f.node.data.LeafNode? then f.node.data.transform else Identity)
  {
    var d := f.node.data;
    PackLayout(if d.OperationNode? then 0.0 else 1.0,
               if d.OperationNode? then OpCode(d.op) else d.scale,
               if d.OperationNode? then d.smoothing else 0.0,
               d.aabb, f.child1 as real, f.child2 as real, f.parentIndex as real, f.flattenedIndex as real,
               if d.LeafNode? then d.transform else Identity);
  }

  /**
   * `serializeFlattenedNode`: a fresh zeroed array of 32 filled with the
   * kind and data slots the node's kind selects, the box, the four links
   * and the matrix.
   */
  method SerializeFlattenedNode(f: FlatNode) returns (data: array<real>)
    ensures fresh(data) && data[..] == Record(f)
  {
    var d := f.node.data;
    data := new real[RecordSize](_ => 0.0);
    if d.OperationNode? {
      WriteRecord(data, 0.0, OpCode(d.op), d.smoothing, d.aabb,
                  f.child1 as real, f.child2 as real, f.parentIndex as real, f.flattenedIndex as real, Identity);
    } else {
      WriteRecord(data, 1.0, d.scale, 0.0, d.aabb,
                  f.child1 as real, f.child2 as real, f.parentIndex as real, f.flattenedIndex as real, d.transform);
    }
  }
}
