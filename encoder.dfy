/** What `Crate._buildSaveBuffer` (index.js) writes: a fixed 64-byte "vrsn"
    header followed by one "otrk"/"ptrk" segment per song path, in list order.
    The method that builds it step by step is `CrateState.Crate.BuildSaveBuffer`;
    the functions here are its specification. */
module Encoder {
  import opened Framing

  /** The header literal `"vrsn   8 1 . 0 / S e r a t o   S c r a t c h L i v e   C r a t e"`
      with every space written as a zero byte, in ASCII, laid out in rows of
      the text it spells: the tag, the size field, then "1.0/", "Serato", " ",
      "Scratch", "Live", " ", "Crate", each character after a zero byte. */
  const HEADER: Bytes :=
    VRSN + [0, 0, 0, 0x38]
    + [0, 0x31, 0, 0x2e, 0, 0x30, 0, 0x2f]
    + [0, 0x53, 0, 0x65, 0, 0x72, 0, 0x61, 0, 0x74, 0, 0x6f]
    + [0, 0]
    + [0, 0x53, 0, 0x63, 0, 0x72, 0, 0x61, 0, 0x74, 0, 0x63, 0, 0x68]
    + [0, 0x4c, 0, 0x69, 0, 0x76, 0, 0x65]
    + [0, 0]
    + [0, 0x43, 0, 0x72, 0, 0x61, 0, 0x74, 0, 0x65]

  /** The header is 64 bytes: the tag "vrsn", then a size field holding 56,
      which is the number of header bytes after it. No byte of it is a 'p',
      so no "ptrk" can start inside it. */
  lemma HeaderLayout()
    ensures |HEADER| == 64
    ensures HEADER[..4] == VRSN
    ensures HEADER[4..8] == Be32(56) && Be32Value(HEADER[4..8]) == |HEADER| - 8
    ensures forall i | 0 <= i < |HEADER| :: HEADER[i] != PTRK[0]
  {
    assert PTRK[0] !in HEADER;
    Be32ValueOfBe32(56);
  }

  /** The bytes stored for one path: `toSeratoString(path.relative("/", p))`. */
  function PathData(p: Bytes): (r: Bytes)
    requires IsAbsolute(p)
    ensures |r| == if |p| == 1 then 1 else 2 * (|p| - 1)
  {
    ToSeratoString(Relative(p))
  }

  /** The longest path whose "otrk" size, `2 * (|p| - 1) + 8`, still fits
      the 32-bit length field. */
  const MAX_PATH_LENGTH: int := 0x7FFF_FFFC

  /** An absolute path whose size fields fit the 32-bit length encoding. */
  predicate Encodable(p: Bytes) {
    IsAbsolute(p) && |p| <= MAX_PATH_LENGTH
  }

  predicate AllEncodable(ps: seq<Bytes>) {
    forall k | 0 <= k < |ps| :: Encodable(ps[k])
  }

  /** The number of bytes `Segment(p)` takes, from the length of `p` alone. */
  function SegmentSize(p: Bytes): int
    requires IsAbsolute(p)
  {
    if |p| == 1 then 17 else 16 + 2 * (|p| - 1)
  }

  /** The segment written for one path:
      "otrk", the size of what follows, "ptrk", the size of the data, the data. */
  function Segment(p: Bytes): (r: Bytes)
    requires Encodable(p)
    ensures |r| == SegmentSize(p)
  {
    var data := PathData(p);
    assert |data| + 8 < TWO_32;
    OTRK + Be32(|data| + 8) + PTRK + Be32(|data|) + data
  }

  /** Each size field counts exactly the bytes after it in the segment: the
      "otrk" size covers the "ptrk" chunk, the "ptrk" size covers the data. */
  lemma SegmentLayout(p: Bytes)
    requires Encodable(p)
    ensures var s := Segment(p);
      |s| == 16 + |PathData(p)| == SegmentSize(p) &&
      s[..4] == OTRK && Be32Value(s[4..8]) == |s| - 8 &&
      s[8..12] == PTRK && Be32Value(s[12..16]) == |s| - 16 &&
      s[16..] == PathData(p)
  {
    var data := PathData(p);
    var s := Segment(p);
    assert s == OTRK + Be32(|data| + 8) + PTRK + Be32(|data|) + data;
    assert s[4..8] == Be32(|data| + 8);
    assert s[12..16] == Be32(|data|);
    Be32ValueOfBe32(|data| + 8);
    Be32ValueOfBe32(|data|);
  }

  /** "/music/song.mp3", 15 bytes long, is written with 28 bytes of data, a
      "ptrk" size of 28 and an "otrk" size of 36. */
  lemma SongSegmentExample(p: Bytes)
    requires p == [0x2f, 0x6d, 0x75, 0x73, 0x69, 0x63, 0x2f,
                   0x73, 0x6f, 0x6e, 0x67, 0x2e, 0x6d, 0x70, 0x33]
    ensures Encodable(p) && |PathData(p)| == 28 && |Segment(p)| == 44
    ensures Be32Value(Segment(p)[4..8]) == 36 && Be32Value(Segment(p)[12..16]) == 28
  {
    assert |p| == 15 && IsAbsolute(p);
    SegmentLayout(p);
  }

  /** The segments written for the paths of `ps`, one per path, in order. */
  function Segments(ps: seq<Bytes>): (r: seq<Bytes>)
    requires AllEncodable(ps)
    ensures |r| == |ps|
  {
    seq(|ps|, i requires 0 <= i < |ps| => Segment(ps[i]))
  }

  /** The byte strings of `ss` written one after the other. */
  function Flatten(ss: seq<Bytes>): (r: Bytes)
  {
    if ss == [] then [] else Flatten(ss[..|ss| - 1]) + ss[|ss| - 1]
  }

  /** The playlist section written for `ps`: the segment of each path, in
      list order. */
  function Body(ps: seq<Bytes>): (r: Bytes)
    requires AllEncodable(ps)
    ensures r == [] <==> ps == []
  {
    Flatten(Segments(ps))
  }

  /** The whole file `_buildSaveBuffer` writes for the list `ps`: the header,
      then the playlist section. */
  function Encode(ps: seq<Bytes>): (r: Bytes)
    requires AllEncodable(ps)
    ensures |r| == |HEADER| + |Body(ps)| && r[..|HEADER|] == HEADER
  {
    HEADER + Body(ps)
  }

  /** Writing an empty list gives the header alone. */
  lemma EncodeEmpty()
    ensures Encode([]) == HEADER && |Encode([])| == 64
  {
    HeaderLayout();
  }

  /** Writing two lists one after the other writes their concatenation. */
  lemma {:induction false} FlattenConcat(xs: seq<Bytes>, ys: seq<Bytes>)
    ensures Flatten(xs + ys) == Flatten(xs) + Flatten(ys)
    decreases |ys|
  {
    if ys == [] {
      assert xs + ys == xs;
    } else {
      var init, last := ys[..|ys| - 1], ys[|ys| - 1];
      var zs := xs + ys;
      assert zs[..|zs| - 1] == xs + init;
      assert zs[|zs| - 1] == last;
      FlattenConcat(xs, init);
      calc {
        Flatten(zs);
        Flatten(xs + init) + last;
        Flatten(xs) + Flatten(init) + last;
        Flatten(xs) + (Flatten(init) + last);
      }
    }
  }

  /** Writing the first `k + 1` entries appends entry `k` to the first `k`. */
  lemma FlattenSnoc(ss: seq<Bytes>, k: int)
    requires 0 <= k < |ss|
    ensures Flatten(ss[..k + 1]) == Flatten(ss[..k]) + ss[k]
  {
    var upto := ss[..k + 1];
    assert upto[..k] == ss[..k] && upto[k] == ss[k];
  }

  /** Entry `k` of `ss` is written right after the entries before it, and
      before those after it. */
  lemma FlattenSplit(ss: seq<Bytes>, k: int)
    requires 0 <= k < |ss|
    ensures Flatten(ss) == Flatten(ss[..k]) + ss[k] + Flatten(ss[k + 1..])
  {
    var upto, rest := ss[..k + 1], ss[k + 1..];
    assert ss == upto + rest;
    FlattenConcat(upto, rest);
    FlattenSnoc(ss, k);
  }

  /** A nonempty list is written starting with its first entry. */
  lemma {:induction false} FlattenHead(ss: seq<Bytes>)
    requires ss != []
    ensures |Flatten(ss)| >= |ss[0]| && Flatten(ss)[..|ss[0]|] == ss[0]
    decreases |ss|
  {
    var init := ss[..|ss| - 1];
    if init != [] {
      assert init[0] == ss[0];
      FlattenHead(init);
      assert (Flatten(init) + ss[|ss| - 1])[..|ss[0]|] == Flatten(init)[..|ss[0]|];
    } else {
      assert Flatten(ss) == [] + ss[0];
    }
  }

  /** The segment of path `k` is written right after the segments of the
      paths before it, and before those of the paths after it. */
  lemma BodySplit(ps: seq<Bytes>, k: int)
    requires AllEncodable(ps) && 0 <= k < |ps|
    ensures Segments(ps)[k] == Segment(ps[k])
    ensures Body(ps) ==
      Flatten(Segments(ps)[..k]) + Segments(ps)[k] + Flatten(Segments(ps)[k + 1..])
  {
    FlattenSplit(Segments(ps), k);
  }

  /** The segments written after path `k`, if any, start with the "otrk" tag. */
  lemma SegmentsAfter(ps: seq<Bytes>, k: int)
    requires AllEncodable(ps) && 0 <= k < |ps| - 1
    ensures |Flatten(Segments(ps)[k + 1..])| >= 4
    ensures Flatten(Segments(ps)[k + 1..])[..4] == OTRK
    ensures Flatten(Segments(ps)[k + 1..])[0] == OTRK[0]
  {
    var rest := Segments(ps)[k + 1..];
    assert rest[0] == Segment(ps[k + 1]);
    SegmentLayout(ps[k + 1]);
    FlattenHead(rest);
    var f := Flatten(rest);
    assert f[..4] == f[..|rest[0]|][..4];
  }
}
