/** The byte layout of cobi/encoding/io.go: each area becomes a 5-byte
    record (its four corner values, then its width), and Write concatenates
    the records of the channels R, G, B, A in order, areas in list order,
    with no count and no separator. Writing the buffer to a file is not
    part of this model. */
module Io {
  import opened Basics
  import opened Encoder

  /** serialize: Values[0], Values[1], Values[2], Values[3], W. */
  function Serialize(a: Area): (bytes: seq<Byte>)
    ensures |bytes| == 5
  {
    [a.Values[0], a.Values[1], a.Values[2], a.Values[3], a.W]
  }

  /** What a record carries back: the corner values and the width. */
  datatype Record = Record(values: Quad, w: Byte)

  /** Reads one 5-byte record. */
  function ParseRecord(bytes: seq<Byte>): Record
    requires |bytes| == 5
  {
    Record(bytes[..4], bytes[4])
  }

  /** The records of a list of areas, in list order. */
  function Records(areas: seq<Area>): (bytes: seq<Byte>)
    ensures |bytes| == 5 * |areas|
  {
    if |areas| == 0 then []
    else Records(areas[..|areas| - 1]) + Serialize(areas[|areas| - 1])
  }

  /** The channels' lists one after the other. */
  function Joined(channels: seq<seq<Area>>): (areas: seq<Area>)
  {
    if |channels| == 0 then []
    else Joined(channels[..|channels| - 1]) + channels[|channels| - 1]
  }

  /** Reads a buffer of whole records, in order. */
  function ParseAll(bytes: seq<Byte>): (records: seq<Record>)
    requires |bytes| % 5 == 0
    ensures |records| == |bytes| / 5
  {
    if |bytes| == 0 then []
    else ParseAll(bytes[..|bytes| - 5]) + [ParseRecord(bytes[|bytes| - 5..])]
  }

  /** The byte-buffer construction of Write: the records of every channel,
      R, G, B, A, in order. */
  method Write(channels: seq<seq<Area>>) returns (data: seq<Byte>)
    ensures data == Records(Joined(channels))
  {
    data := [];
    var c := 0;
    while c < |channels|
      invariant 0 <= c <= |channels|
      invariant data == Records(Joined(channels[..c]))
    {
      var i := 0;
      assert Joined(channels[..c]) + channels[c][..0] == Joined(channels[..c]);
      while i < |channels[c]|
        invariant 0 <= i <= |channels[c]|
        invariant data == Records(Joined(channels[..c]) + channels[c][..i])
      {
        data := data + Serialize(channels[c][i]);
        assert (Joined(channels[..c]) + channels[c][..i + 1])[..|Joined(channels[..c]) + channels[c][..i]|]
            == Joined(channels[..c]) + channels[c][..i];
        i := i + 1;
      }
      assert channels[..c + 1][..c] == channels[..c];
      assert channels[c][..|channels[c]|] == channels[c];
      c := c + 1;
    }
    assert channels[..|channels|] == channels;
  }

  // ---------------------------------------------------------------------
  // What the layout keeps and what it loses

  /** A record reads back as the area's corner values and width. */
  lemma ParseSerialize(a: Area)
    ensures ParseRecord(Serialize(a)) == Record(a.Values, a.W)
  {
    assert Serialize(a)[..4] == a.Values;
  }

  /** Two areas serialise alike exactly when their values and widths agree:
      X, Y and H are not written. */
  lemma SerializeKeeps(a: Area, b: Area)
    ensures Serialize(a) == Serialize(b) <==> a.Values == b.Values && a.W == b.W
  {
    if Serialize(a) == Serialize(b) {
      ParseSerialize(a);
      ParseSerialize(b);
    }
    if a.Values == b.Values && a.W == b.W {
      assert Serialize(a) == Serialize(b);
    }
  }

  /** serialize is not injective: two different areas with the same record. */
  lemma SerializeNotInjective()
    ensures Area(0, 0, 2, 3, [1, 2, 3, 4]) != Area(5, 7, 2, 9, [1, 2, 3, 4])
    ensures Serialize(Area(0, 0, 2, 3, [1, 2, 3, 4])) == Serialize(Area(5, 7, 2, 9, [1, 2, 3, 4]))
  {
  }

  /** Reading a written buffer gives back, for every area in order, its
      values and width. */
  lemma {:induction false} ParseRecords(areas: seq<Area>)
    ensures |ParseAll(Records(areas))| == |areas|
    ensures forall k :: 0 <= k < |areas| ==> ParseAll(Records(areas))[k] == Record(areas[k].Values, areas[k].W)
  {
    if |areas| > 0 {
      var init := areas[..|areas| - 1];
      var last := areas[|areas| - 1];
      var bytes := Records(areas);
      var front := Records(init);
      WholeRecords(|areas|);
      assert bytes == front + Serialize(last);
      assert bytes[..|bytes| - 5] == front;
      assert bytes[|bytes| - 5..] == Serialize(last);
      ParseRecords(init);
      ParseSerialize(last);
      var parsed := ParseAll(bytes);
      assert parsed == ParseAll(front) + [Record(last.Values, last.W)];
      forall k | 0 <= k < |areas|
        ensures parsed[k] == Record(areas[k].Values, areas[k].W)
      {
        if k < |init| {
          assert areas[k] == init[k];
        }
      }
    }
  }

  lemma WholeRecords(n: nat)
    ensures (5 * n) % 5 == 0
  {
  }

  /** Write's buffer for four channels is the records of their lists joined. */
  lemma JoinedFour(r: seq<Area>, g: seq<Area>, b: seq<Area>, a: seq<Area>)
    ensures Joined([r, g, b, a]) == r + g + b + a
  {
    assert [r, g, b, a][..3] == [r, g, b];
    assert [r, g, b][..2] == [r, g];
    assert [r, g][..1] == [r];
    var none: seq<seq<Area>> := [];
    assert [r][..0] == none;
    assert Joined([r]) == r;
    assert Joined([r, g]) == r + g;
    assert Joined([r, g, b]) == r + g + b;
  }

  /** No channel boundary is written: moving areas from the end of one
      channel's list to the start of the next leaves the buffer unchanged. */
  lemma BoundariesLost(r: seq<Area>, g: seq<Area>, b: seq<Area>, a: seq<Area>, moved: seq<Area>)
    ensures Records(Joined([r + moved, g, b, a])) == Records(Joined([r, moved + g, b, a]))
  {
    JoinedFour(r + moved, g, b, a);
    JoinedFour(r, moved + g, b, a);
    assert (r + moved) + g == r + (moved + g);
  }

  /** Four empty channels give an empty buffer. */
  lemma EmptyBuffer()
    ensures Records(Joined([[], [], [], []])) == []
  {
    var none: seq<Area> := [];
    JoinedFour(none, none, none, none);
  }

  /** The buffer holds five bytes per area of every channel. */
  lemma {:induction false} BufferLength(channels: seq<seq<Area>>)
    ensures |Records(Joined(channels))| == 5 * TotalAreas(channels)
  {
    if |channels| > 0 {
      BufferLength(channels[..|channels| - 1]);
    }
  }

  function TotalAreas(channels: seq<seq<Area>>): nat
  {
    if |channels| == 0 then 0 else TotalAreas(channels[..|channels| - 1]) + |channels[|channels| - 1]|
  }
}
