/**
 * The 128-byte node record both serialisers write for the shader: four
 * `vec4<f32>` groups followed by a `mat4x4<f32>`, 32 slots in all. Values are
 * exact reals, not 32-bit floats.
 */
module GpuRecord {
  import opened Geometry

  /** Slots per node record, and the stride between records in a tree buffer. */
  const RecordSize: nat := 32

  /**
   * One record: `kind, data1, data2, 0 | min, 0 | max, 0 | i0, i1, i2, i3 | matrix`.
   * The meaning of the data and index slots is the serialiser's.
   */
  function Pack(kind: real, data1: real, data2: real, box: Aabb,
                i0: real, i1: real, i2: real, i3: real, matrix: Mat4): seq<real>
  {
    [kind, data1, data2, 0.0,
     box.min.x, box.min.y, box.min.z, 0.0,
     box.max.x, box.max.y, box.max.z, 0.0,
     i0, i1, i2, i3] + matrix
  }

  /** The slot-by-slot reading of a record. */
  lemma PackLayout(kind: real, data1: real, data2: real, box: Aabb,
                   i0: real, i1: real, i2: real, i3: real, matrix: Mat4)
    ensures var r := Pack(kind, data1, data2, box, i0, i1, i2, i3, matrix);
      |r| == RecordSize
      && r[0] == kind && r[1] == data1 && r[2] == data2 && r[3] == 0.0
      && Vec3(r[4], r[5], r[6]) == box.min && r[7] == 0.0
      && Vec3(r[8], r[9], r[10]) == box.max && r[11] == 0.0
      && r[12] == i0 && r[13] == i1 && r[14] == i2 && r[15] == i3
      && r[16..32] == matrix
  {
  }

  /** Records laid end to end, as `buffer.set(record, index * stride)` does. */
  function Concat(rs: seq<seq<real>>): seq<real>
  {
    if |rs| == 0 then [] else Concat(rs[..|rs| - 1]) + rs[|rs| - 1]
  }

  /** Of records of 32 slots each, record `i` occupies `[32 i, 32 i + 32)` of their concatenation. */
  lemma {:induction false} ConcatSlices(rs: seq<seq<real>>, i: int)
    requires forall j :: 0 <= j < |rs| ==> |rs[j]| == RecordSize
    ensures |Concat(rs)| == RecordSize * |rs|
    ensures 0 <= i < |rs| ==> Concat(rs)[RecordSize * i .. RecordSize * i + RecordSize] == rs[i]
    decreases |rs|
  {
    if |rs| > 0 {
      var n := |rs| - 1;
      ConcatSlices(rs[..n], i);
      if i < n {
        assert Concat(rs)[..RecordSize * n] == Concat(rs[..n]);
      } else if i == n {
        assert Concat(rs)[RecordSize * n..] == rs[n];
      }
    }
  }

  /** `buffer.set(record, at)`: the record's slots copied in at `at`, the slots before it kept. */
  method Place(buffer: array<real>, at: nat, rec: array<real>)
    requires rec.Length == RecordSize && at + RecordSize <= buffer.Length && buffer != rec
    modifies buffer
    ensures buffer[..at] == old(buffer[..at]) && buffer[at..at + RecordSize] == rec[..]
  {
    forall k | 0 <= k < RecordSize {
      buffer[at + k] := rec[k];
    }
  }

  /** Four consecutive `data[currentOffset++] = …` writes. */
  method Put4(data: array<real>, offset: nat, a: real, b: real, c: real, d: real) returns (offset': nat)
    requires offset + 4 <= data.Length
    modifies data
    ensures offset' == offset + 4
    ensures data[..] == old(data[..offset]) + [a, b, c, d] + old(data[offset + 4..])
  {
    offset' := offset;
    data[offset'] := a;
    offset' := offset' + 1;
    data[offset'] := b;
    offset' := offset' + 1;
    data[offset'] := c;
    offset' := offset' + 1;
    data[offset'] := d;
    offset' := offset' + 1;
  }

  /**
   * The writes of a `serializeFlattenedNode`: the four `vec4` groups at a
   * running offset, then the matrix copied in at offset 16.
   */
  method WriteRecord(data: array<real>, kind: real, data1: real, data2: real, box: Aabb,
                     i0: real, i1: real, i2: real, i3: real, matrix: Mat4)
    requires data.Length == RecordSize
    modifies data
    ensures data[..] == Pack(kind, data1, data2, box, i0, i1, i2, i3, matrix)
  {
    var offset := WriteHeader(data, kind, data1, data2, box, i0, i1, i2, i3);
    forall k | 0 <= k < 16 {
      data[offset + k] := matrix[k];
    }
    assert data[..] == data[..16] + data[16..];
  }

  /** The four `vec4` groups: kind and data, the box corners with zero padding, the links. */
  method WriteHeader(data: array<real>, kind: real, data1: real, data2: real, box: Aabb,
                     i0: real, i1: real, i2: real, i3: real) returns (offset: nat)
    requires data.Length == RecordSize
    modifies data
    ensures offset == 16
    ensures data[..16] == [kind, data1, data2, 0.0, box.min.x, box.min.y, box.min.z, 0.0,
                           box.max.x, box.max.y, box.max.z, 0.0, i0, i1, i2, i3]
  {
    offset := Put4(data, 0, kind, data1, data2, 0.0);
    offset := Put4(data, offset, box.min.x, box.min.y, box.min.z, 0.0);
    offset := Put4(data, offset, box.max.x, box.max.y, box.max.z, 0.0);
    offset := Put4(data, offset, i0, i1, i2, i3);
  }
}
