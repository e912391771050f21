/** Vertex-buffer bookkeeping of `TractRenderData`: vertices are appended to
    flat float buffers, and each finished strip records where it starts and
    how many vertices it has. */
module TractRender {
  import opened Common

  datatype Vec3 = Vec3(x: real, y: real, z: real)

  function Last(s: seq<int>): int
    requires |s| > 0
  {
    s[|s| - 1]
  }

  /** The strip table is consistent with `count` vertices: positions start
      at 0 and never decrease nor pass `count`, and each size is the gap
      between two consecutive positions. */
  ghost predicate StripsValid(pos: seq<int>, size: seq<int>, count: nat)
  {
    && |pos| == |size| + 1
    && pos[0] == 0
    && Last(pos) <= count
    && (forall k :: 0 <= k < |size| ==> size[k] == pos[k + 1] - pos[k])
    && (forall k :: 0 <= k < |size| ==> pos[k] <= pos[k + 1])
  }

  /** The strip sizes add up to the last recorded position: every vertex
      before it belongs to exactly one strip. */
  lemma {:induction false} StripSizesSum(pos: seq<int>, size: seq<int>)
    requires |pos| == |size| + 1 && pos[0] == 0
    requires forall k :: 0 <= k < |size| ==> size[k] == pos[k + 1] - pos[k]
    ensures Sum(size) == Last(pos)
    decreases |size|
  {
    if size != [] {
      var n := |size|;
      StripSizesSum(pos[..n], size[..n - 1]);
    }
  }

  /** Closing a strip keeps the table consistent. */
  lemma {:induction false} EndStripValid(pos: seq<int>, size: seq<int>, count: nat)
    requires StripsValid(pos, size, count)
    ensures StripsValid(pos + [count], size + [count - Last(pos)], count)
  {
  }

  class TractRenderData {
    var tubeVertices: seq<real>
    var tubeVerticesCount: nat
    var lineVertices: seq<real>
    var lineVerticesCount: nat
    var tubeStripPos: seq<int>
    var lineStripPos: seq<int>
    var tubeStripSize: seq<int>
    var lineStripSize: seq<int>

    /** A tube vertex is 9 floats (position, normal, colour), a line vertex
        6 (position, colour); both strip tables are consistent. */
    ghost predicate Valid()
      reads this
    {
      && |tubeVertices| == 9 * tubeVerticesCount
      && |lineVertices| == 6 * lineVerticesCount
      && StripsValid(tubeStripPos, tubeStripSize, tubeVerticesCount)
      && StripsValid(lineStripPos, lineStripSize, lineVerticesCount)
    }

    constructor ()
      ensures Valid()
      ensures tubeVertices == [] && tubeVerticesCount == 0
      ensures lineVertices == [] && lineVerticesCount == 0
      ensures tubeStripPos == [0] && lineStripPos == [0]
      ensures tubeStripSize == [] && lineStripSize == []
    {
      tubeVertices, tubeVerticesCount := [], 0;
      lineVertices, lineVerticesCount := [], 0;
      tubeStripPos, lineStripPos := [0], [0];
      tubeStripSize, lineStripSize := [], [];
    }

    /** `add_tube`: position, then normal, then colour. */
    method AddTube(v: Vec3, c: Vec3, n: Vec3)
      requires Valid()
      modifies this
      ensures Valid()
      ensures tubeVertices == old(tubeVertices) + [v.x, v.y, v.z, n.x, n.y, n.z, c.x, c.y, c.z]
      ensures tubeVerticesCount == old(tubeVerticesCount) + 1
      ensures tubeStripPos == old(tubeStripPos) && tubeStripSize == old(tubeStripSize)
      ensures lineVertices == old(lineVertices) && lineVerticesCount == old(lineVerticesCount)
      ensures lineStripPos == old(lineStripPos) && lineStripSize == old(lineStripSize)
    {
      tubeVertices := tubeVertices + [v.x, v.y, v.z];
      tubeVertices := tubeVertices + [n.x, n.y, n.z];
      tubeVertices := tubeVertices + [c.x, c.y, c.z];
      tubeVerticesCount := tubeVerticesCount + 1;
    }

    /** `add_line`: position, then colour. */
    method AddLine(v: Vec3, c: Vec3)
      requires Valid()
      modifies this
      ensures Valid()
      ensures lineVertices == old(lineVertices) + [v.x, v.y, v.z, c.x, c.y, c.z]
      ensures lineVerticesCount == old(lineVerticesCount) + 1
      ensures lineStripPos == old(lineStripPos) && lineStripSize == old(lineStripSize)
      ensures tubeVertices == old(tubeVertices) && tubeVerticesCount == old(tubeVerticesCount)
      ensures tubeStripPos == old(tubeStripPos) && tubeStripSize == old(tubeStripSize)
    {
      lineVertices := lineVertices + [v.x, v.y, v.z];
      lineVertices := lineVertices + [c.x, c.y, c.z];
      lineVerticesCount := lineVerticesCount + 1;
    }

    /** `end_tube_strip`: the new strip holds the tube vertices added since
        the previous one ended. */
    method EndTubeStrip()
      requires Valid()
      modifies this
      ensures Valid()
      ensures tubeStripSize == old(tubeStripSize) + [tubeVerticesCount - Last(old(tubeStripPos))]
      ensures tubeStripPos == old(tubeStripPos) + [tubeVerticesCount]
      ensures Sum(tubeStripSize) == Last(tubeStripPos) == tubeVerticesCount
      ensures tubeVertices == old(tubeVertices) && tubeVerticesCount == old(tubeVerticesCount)
      ensures lineVertices == old(lineVertices) && lineVerticesCount == old(lineVerticesCount)
      ensures lineStripPos == old(lineStripPos) && lineStripSize == old(lineStripSize)
    {
      var pos, size := tubeStripPos + [tubeVerticesCount], tubeStripSize + [tubeVerticesCount - Last(tubeStripPos)];
      EndStripValid(tubeStripPos, tubeStripSize, tubeVerticesCount);
      StripSizesSum(pos, size);
      tubeStripPos, tubeStripSize := pos, size;
    }

    /** `end_line_strip`: the new strip holds the line vertices added since
        the previous one ended. */
    method EndLineStrip()
      requires Valid()
      modifies this
      ensures Valid()
      ensures lineStripSize == old(lineStripSize) + [lineVerticesCount - Last(old(lineStripPos))]
      ensures lineStripPos == old(lineStripPos) + [lineVerticesCount]
      ensures Sum(lineStripSize) == Last(lineStripPos) == lineVerticesCount
      ensures lineVertices == old(lineVertices) && lineVerticesCount == old(lineVerticesCount)
      ensures tubeVertices == old(tubeVertices) && tubeVerticesCount == old(tubeVerticesCount)
      ensures tubeStripPos == old(tubeStripPos) && tubeStripSize == old(tubeStripSize)
    {
      var pos, size := lineStripPos + [lineVerticesCount], lineStripSize + [lineVerticesCount - Last(lineStripPos)];
      EndStripValid(lineStripPos, lineStripSize, lineVerticesCount);
      StripSizesSum(pos, size);
      lineStripPos, lineStripSize := pos, size;
    }
  }
}
