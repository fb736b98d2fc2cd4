/**
 * `serializeFlattenedNode` and `serializeTreeForWebGPU` of the blob
 * revision: the 32-slot record of a flattened node, whose index group holds
 * `entry`, `exit` and `flattenedIndex`, and the records of a flattened tree
 * laid end to end.
 */
module BlobSerialize {
  import opened Common
  import opened Geometry
  import opened GpuRecord
  import opened BlobStore
  import opened BlobFlatten

  /** The record of a flattened node: an operation is kind 0 with the identity matrix, a leaf kind 1 with its transform. */
  function Record(f: FlatNode): seq<real>
  {
    match f.node
    case OperationNode(_, _, _, box, op, smoothing, _) =>
      Pack(0.0, OpCode(op), smoothing, box, f.entry as real, f.exit as real, f.flattenedIndex as real, 0.0, Identity)
    case LeafNode(_, _, _, box, transform, scale) =>
      Pack(1.0, scale, 0.0, box, f.entry as real, f.exit as real, f.flattenedIndex as real, 0.0, transform)
  }

  /**
   * What a shader reads back from a record: the kind slot tells the two
   * kinds apart, the operation code reads back as the operation, the box,
   * `entry`, `exit` and `flattenedIndex` sit in their slots, the padding is
   * zero, and the matrix is the leaf's transform or the identity.
   */
  lemma RecordFields(f: FlatNode)
    ensures var r := Record(f);
      |r| == RecordSize
      && (r[0] == 0.0 <==> f.node.OperationNode?) && (r[0] == 1.0 <==> f.node.LeafNode?)
      && (f.node.OperationNode? ==> OpFromCode(r[1]) == Some(f.node.op) && r[2] == f.node.smoothing)
      && (f.node.LeafNode? ==> r[1] == f.node.scale && r[2] == 0.0)
      && Vec3(r[4], r[5], r[6]) == f.node.aabb.min && Vec3(r[8], r[9], r[10]) == f.node.aabb.max
      && r[3] == 0.0 && r[7] == 0.0 && r[11] == 0.0 && r[15] == 0.0
      && r[12] == f.entry as real && r[13] == f.exit as real && r[14] == f.flattenedIndex as real
      && r[16..32] == (if f.node.LeafNode? then f.node.transform else Identity)
  {
    var n := f.node;
    PackLayout(if n.OperationNode? then 0.0 else 1.0,
               if n.OperationNode? then OpCode(n.op) else n.scale,
               if n.OperationNode? then n.smoothing else 0.0,
               n.aabb, f.entry as real, f.exit as real, f.flattenedIndex as real, 0.0,
               if n.LeafNode? then n.transform else Identity);
  }

  /**
   * `serializeFlattenedNode`: a fresh zeroed array of 32 filled with the
   * kind and data slots the node's kind selects, the box, `entry`, `exit`,
   * `flattenedIndex` and the matrix.
   */
  method SerializeFlattenedNode(f: FlatNode) returns (data: array<real>)
    ensures fresh(data) && data[..] == Record(f)
  {
    var n := f.node;
    data := new real[RecordSize](_ => 0.0);
    if n.OperationNode? {
      WriteRecord(data, 0.0, OpCode(n.op), n.smoothing, n.aabb,
                  f.entry as real, f.exit as real, f.flattenedIndex as real, 0.0, Identity);
    } else {
      WriteRecord(data, 1.0, n.scale, 0.0, n.aabb,
                  f.entry as real, f.exit as real, f.flattenedIndex as real, 0.0, n.transform);
    }
  }

  /** The records of a flattened list, in order. */
  function Records(flat: seq<FlatNode>): (rs: seq<seq<real>>)
    ensures |rs| == |flat| && forall i :: 0 <= i < |flat| ==> rs[i] == Record(flat[i])
  {
    seq(|flat|, i requires 0 <= i < |flat| => Record(flat[i]))
  }

  /**
   * The body of `serializeTreeForWebGPU` after flattening: an empty array
   * for an empty list, else one record per flattened node at `index * 32`.
   */
  method SerializeFlat(flattened: seq<FlatNode>) returns (buffer: array<real>)
    ensures fresh(buffer) && buffer[..] == Concat(Records(flattened))
  {
    if |flattened| == 0 {
      buffer := new real[0];
      return;
    }
    buffer := new real[|flattened| * RecordSize](_ => 0.0);
    for index := 0 to |flattened|
      invariant buffer[..index * RecordSize] == Concat(Records(flattened[..index]))
    {
      PutRecord(buffer, flattened, index);
    }
    assert flattened[..|flattened|] == flattened;
    assert buffer[..] == buffer[..|flattened| * RecordSize];
  }

  /** One pass of the `forEach`: record `index` placed after the records before it. */
  method PutRecord(buffer: array<real>, flattened: seq<FlatNode>, index: nat)
    requires buffer.Length == |flattened| * RecordSize && index < |flattened|
    requires buffer[..index * RecordSize] == Concat(Records(flattened[..index]))
    modifies buffer
    ensures buffer[..(index + 1) * RecordSize] == Concat(Records(flattened[..index + 1]))
  {
    var at := index * RecordSize;
    var rec := SerializeFlattenedNode(flattened[index]);
    Place(buffer, at, rec);
    RecordsSnoc(flattened, index);
    assert buffer[..at + RecordSize] == buffer[..at] + buffer[at..at + RecordSize];
  }

  /** The records of one more node are those before it followed by its own. */
  lemma RecordsSnoc(flattened: seq<FlatNode>, index: nat)
    requires index < |flattened|
    ensures Concat(Records(flattened[..index + 1])) == Concat(Records(flattened[..index])) + Record(flattened[index])
  {
    var rs := Records(flattened[..index + 1]);
    assert rs[..index] == Records(flattened[..index]);
  }

  /** Record `i` of a serialised list, read from its slice of the buffer. */
  lemma RecordAt(flattened: seq<FlatNode>, i: int)
    requires 0 <= i < |flattened|
    ensures |Concat(Records(flattened))| == RecordSize * |flattened|
    ensures Concat(Records(flattened))[RecordSize * i .. RecordSize * i + RecordSize] == Record(flattened[i])
  {
    var rs := Records(flattened);
    forall j | 0 <= j < |rs| ensures |rs[j]| == RecordSize {
      RecordFields(flattened[j]);
    }
    ConcatSlices(rs, i);
  }
}
