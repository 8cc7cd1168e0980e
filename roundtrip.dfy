/** Why `parse` reads back exactly the list `_buildSaveBuffer` wrote
    (index.js): "ptrk" occurs in the written file at the path tag of each
    segment and nowhere else, and the offsets `+9` and `-8` that `parse` uses
    around each match land exactly on the text of that segment's path. */
module RoundTrip {
  import opened Framing
  import opened Encoder
  import opened Decoder

  /** A whole window of four bytes is "ptrk" exactly when its bytes are
      'p', 't', 'r', 'k'. */
  lemma WindowBytes(c: Bytes, j: int)
    requires 0 <= j && j + 4 <= |c|
    ensures TagAt(c, j) <==>
      c[j] == PTRK[0] && c[j + 1] == PTRK[1] && c[j + 2] == PTRK[2] && c[j + 3] == PTRK[3]
  {
    var w := c[j..j + 4];
    assert w[0] == c[j] && w[1] == c[j + 1] && w[2] == c[j + 2] && w[3] == c[j + 3];
    if c[j] == PTRK[0] && c[j + 1] == PTRK[1] && c[j + 2] == PTRK[2] && c[j + 3] == PTRK[3] {
      assert w == PTRK;
    }
  }

  /** Neither size field of a segment reads as "ptrk": its last byte 'k' is
      odd, while the data length is even, or 1 for the root path, and so is
      the data length plus 8. */
  lemma SizeFieldsAreNotTags(p: Bytes)
    requires Encodable(p)
    ensures Be32(|PathData(p)| + 8) != PTRK && Be32(|PathData(p)|) != PTRK
  {
    var n := |PathData(p)|;
    assert n == 1 || n % 2 == 0;
    assert Be32(n + 8)[3] == (n + 8) % 0x100;
    assert Be32(n)[3] == n % 0x100;
  }

  /** No "ptrk" starts in the 16 bytes of tags and size fields of a segment
      at `n`, other than its path tag at `n + 8`; the byte at `n + 16` is the
      leading zero of the path data. */
  lemma NoTagInFraming(c: Bytes, n: int, j: int)
    requires 0 <= n && n + 17 <= |c|
    requires c[n..n + 4] == OTRK && c[n + 8..n + 12] == PTRK && c[n + 16] == 0
    requires c[n + 4..n + 8] != PTRK && c[n + 12..n + 16] != PTRK
    requires n <= j < n + 16 && j != n + 8
    ensures !TagAt(c, j)
  {
    var t := j - n;
    assert c[n..n + 4][t % 4] == c[n + t % 4];
    assert c[n + 8..n + 12][t % 4] == c[n + 8 + t % 4];
    if t != 4 && t != 12 && j + 4 <= |c| {
      WindowBytes(c, j);
      if t < 4 {
        assert c[j] == OTRK[t];
      } else if t < 8 {
        assert c[n + 8] == PTRK[0];
      } else if t < 12 {
        assert c[j] == PTRK[t - 8];
      }
    }
  }

  /** No "ptrk" starts in zero-interleaved data at `[lo, hi)` that is followed
      by the end of the file or by the "otrk" tag of the next segment. */
  lemma NoTagInData(c: Bytes, lo: int, hi: int, j: int)
    requires 0 <= lo <= j < hi <= |c|
    requires forall x | lo <= x < hi && (x - lo) % 2 == 0 :: c[x] == 0
    requires hi == |c| || c[hi] == OTRK[0]
    ensures !TagAt(c, j)
  {
    if j + 4 <= |c| {
      WindowBytes(c, j);
      if j + 4 <= hi {
        if (j - lo) % 2 == 0 {
          assert c[j] == 0;
        } else {
          assert c[j + 1] == 0;
        }
      } else {
        assert c[hi] == OTRK[0];
      }
    }
  }

  /** The shape of a segment that keeps "ptrk" from matching anywhere but
      at its path tag: the tags "otrk" and "ptrk" at offsets 0 and 8, size
      fields that do not read as "ptrk", and a zero byte at every even offset
      of the path data. */
  predicate SegmentShaped(s: Bytes) {
    |s| >= 17 && s[..4] == OTRK && s[4..8] != PTRK && s[8..12] == PTRK &&
    s[12..16] != PTRK && forall x | 16 <= x < |s| && x % 2 == 0 :: s[x] == 0
  }

  /** Every segment `_buildSaveBuffer` writes has that shape. */
  lemma SegmentIsShaped(p: Bytes)
    requires Encodable(p)
    ensures SegmentShaped(Segment(p))
  {
    var s := Segment(p);
    var d := PathData(p);
    SegmentLayout(p);
    SizeFieldsAreNotTags(p);
    assert s[4..8] == Be32(|d| + 8) && s[12..16] == Be32(|d|);
    ToSeratoStringAt(Relative(p));
    forall x | 16 <= x < |s| && x % 2 == 0 ensures s[x] == 0 {
      assert s[x] == d[x - 16];
    }
  }

  /** Inside a segment-shaped `s`, placed after any bytes `a` and followed by
      the next segment or by the end of the file, "ptrk" starts at offset 8
      and nowhere else, even across the boundaries of `s`. */
  lemma ShapedTagAt(c: Bytes, a: Bytes, s: Bytes, b: Bytes, j: int)
    requires SegmentShaped(s) && (b == [] || b[0] == OTRK[0])
    requires c == a + s + b && |a| <= j < |a| + |s|
    ensures TagAt(c, j) <==> j == |a| + 8
  {
    var n := |a|;
    var e := n + |s|;
    assert c[n..e] == s;
    assert c[n..n + 4] == s[..4];
    assert c[n + 4..n + 8] == s[4..8];
    assert c[n + 8..n + 12] == s[8..12];
    assert c[n + 12..n + 16] == s[12..16];
    if j == n + 8 {
    } else if j < n + 16 {
      assert c[n + 16] == s[16] == 0;
      NoTagInFraming(c, n, j);
    } else {
      forall x | n + 16 <= x < e && (x - (n + 16)) % 2 == 0 ensures c[x] == 0 {
        assert c[x] == s[x - n];
      }
      assert e == |c| || c[e] == b[0];
      NoTagInData(c, n + 16, e, j);
    }
  }

  /** The matches of "ptrk" within one segment `s` of a file `c`, which spans
      `[lo, hi)`: exactly its path tag. */
  lemma SegmentMatches(c: Bytes, a: Bytes, s: Bytes, b: Bytes, lo: int, hi: int)
    requires SegmentShaped(s) && (b == [] || b[0] == OTRK[0])
    requires c == a + s + b && lo == |a| && hi == |a| + |s|
    ensures MatchesIn(c, lo, hi) == [lo + 8]
  {
    forall j | lo <= j < hi ensures TagAt(c, j) <==> j == lo + 8 {
      ShapedTagAt(c, a, s, b, j);
    }
    MatchesInSingle(c, lo, lo + 8, hi);
  }

  /** Regrouping a concatenation of four parts. */
  lemma Regroup(c: Bytes, h: Bytes, f: Bytes, s: Bytes, b: Bytes)
    requires c == h + (f + s + b)
    ensures c == (h + f) + s + b
  {
  }

  /** Where the segment of path `k` starts in the playlist section written
      for `ps`: after the segments of the paths before it. */
  function Offset(ps: seq<Bytes>, k: int): (r: int)
    requires AllEncodable(ps) && 0 <= k <= |ps|
  {
    |Flatten(Segments(ps)[..k])|
  }

  /** No "ptrk" starts inside a leading part `h` of a file that holds no 'p'. */
  lemma LeadMatches(c: Bytes, h: Bytes)
    requires forall i | 0 <= i < |h| :: h[i] != PTRK[0]
    requires |h| <= |c| && c[..|h|] == h
    ensures MatchesIn(c, 0, |h|) == []
  {
    forall j | 0 <= j < |h| ensures !TagAt(c, j) {
      assert c[j] == h[j];
      if j + 4 <= |c| {
        WindowBytes(c, j);
      }
    }
    MatchesInNone(c, 0, |h|);
  }

  /** The cut points of a file made of a leading part `h` and the playlist
      section for `ps`: the end of `h`, then the end of each segment. */
  function Cuts(h: Bytes, ps: seq<Bytes>): (o: seq<int>)
    requires AllEncodable(ps)
    ensures |o| == |ps| + 1
  {
    seq(|ps| + 1, i requires 0 <= i <= |ps| => |h| + Offset(ps, i))
  }

  /** Segment `k` of such a file is the `s` of a split `c == a + s + b`
      between cut points `k` and `k + 1`, followed by the "otrk" tag of the
      next segment or by the end of the file. */
  lemma SegmentPlace(h: Bytes, ps: seq<Bytes>, c: Bytes, k: int, lo: int, hi: int)
    returns (a: Bytes, s: Bytes, b: Bytes)
    requires AllEncodable(ps) && c == h + Body(ps) && 0 <= k < |ps|
    requires lo == |h| + Offset(ps, k) && hi == |h| + Offset(ps, k + 1)
    ensures c == a + s + b && s == Segment(ps[k])
    ensures lo == |a| && hi == |a| + |s| && |s| == SegmentSize(ps[k])
    ensures b == [] <==> k == |ps| - 1
    ensures b == [] || b[0] == OTRK[0]
  {
    var ss := Segments(ps);
    BodySplit(ps, k);
    var front := Flatten(ss[..k]);
    s, b := ss[k], Flatten(ss[k + 1..]);
    Regroup(c, h, front, s, b);
    a := h + front;
    FlattenSnoc(ss, k);
    if k + 1 < |ps| {
      SegmentsAfter(ps, k);
    } else {
      assert ss[k + 1..] == [];
    }
  }

  /** Segment `k` of such a file lies between cut points `k` and `k + 1` and
      holds "ptrk" at its path tag alone. */
  lemma SegmentOfFile(h: Bytes, ps: seq<Bytes>, c: Bytes, k: int, lo: int, hi: int)
    requires AllEncodable(ps) && c == h + Body(ps) && 0 <= k < |ps|
    requires lo == |h| + Offset(ps, k) && hi == |h| + Offset(ps, k + 1)
    ensures lo + 17 <= hi <= |c|
    ensures MatchesIn(c, lo, hi) == [lo + 8]
  {
    var a, s, b := SegmentPlace(h, ps, c, k, lo, hi);
    SegmentIsShaped(ps[k]);
    SegmentMatches(c, a, s, b, lo, hi);
  }

  /** Every segment of the file, between consecutive cut points, holds one
      match. */
  lemma SegmentsOfFile(h: Bytes, ps: seq<Bytes>, c: Bytes, o: seq<int>)
    requires AllEncodable(ps) && c == h + Body(ps) && o == Cuts(h, ps)
    ensures forall i | 0 <= i < |o| - 1 :: o[i] <= o[i + 1]
    ensures forall i | 0 <= i < |o| - 1 :: MatchesIn(c, o[i], o[i + 1]) == [o[i] + 8]
  {
    forall i | 0 <= i < |ps|
      ensures o[i] <= o[i + 1] && MatchesIn(c, o[i], o[i + 1]) == [o[i] + 8]
    {
      SegmentOfFile(h, ps, c, i, o[i], o[i + 1]);
    }
  }

  /** In a file made of a leading part `h` without 'p' and the playlist
      section for `ps`, "ptrk" occurs once per path, 8 bytes into the path's
      segment, in list order, and nowhere else. */
  lemma MatchesOfFile(h: Bytes, ps: seq<Bytes>, c: Bytes, o: seq<int>)
    requires forall i | 0 <= i < |h| :: h[i] != PTRK[0]
    requires AllEncodable(ps) && c == h + Body(ps) && o == Cuts(h, ps)
    ensures o[0] == |h| && o[|ps|] == |c|
    ensures Matches(c) == seq(|ps|, i requires 0 <= i < |ps| => o[i] + 8)
  {
    var n := |ps|;
    assert MatchesIn(c, 0, o[0]) == [] by {
      assert c[..|h|] == h;
      LeadMatches(c, h);
    }
    SegmentsOfFile(h, ps, c, o);
    assert o[n] == |c| by {
      assert Segments(ps)[..n] == Segments(ps);
    }
    MatchesInChain(c, o, n);
  }

  /** `parse` reads path `k` back from a file made of a leading part `h`
      without 'p' and the playlist section for `ps`. */
  lemma SongOfFile(h: Bytes, ps: seq<Bytes>, c: Bytes, k: int)
    requires forall i | 0 <= i < |h| :: h[i] != PTRK[0]
    requires AllEncodable(ps) && c == h + Body(ps) && 0 <= k < |ps|
    requires 0 !in ps[k]
    ensures |Matches(c)| == |ps|
    ensures SongAt(c, Matches(c), k) == ps[k]
  {
    var o := Cuts(h, ps);
    MatchesOfFile(h, ps, c, o);
    var m := Matches(c);
    var a, s, b := SegmentPlace(h, ps, c, k, o[k], o[k + 1]);
    var start, end := m[k] + 9, if k == |m| - 1 then |c| else m[k + 1] - 8;
    assert start == |a| + 17 && end == |a| + |s|;
    SongInSegment(c, a, ps[k], s, b, start, end);
  }

  /** The bytes from 17 into a segment to its end, with zero bytes removed
      and "/" put in front, are the segment's path. */
  lemma SongInSegment(c: Bytes, a: Bytes, p: Bytes, s: Bytes, b: Bytes, start: int, end: int)
    requires Encodable(p) && 0 !in p && s == Segment(p)
    requires c == a + s + b && start == |a| + 17 && end == |a| + |s|
    ensures Resolve(StripZeros(JsSlice(c, start, end))) == p
  {
    SegmentLayout(p);
    assert JsSlice(c, start, end) == s[17..];
    var rel := Relative(p);
    assert s[16..] == ToSeratoString(rel) == [0] + JoinWithZero(rel);
    assert s[17..] == JoinWithZero(rel);
    assert 0 !in rel;
    StripZerosOfJoin(rel);
  }

  /** `parse` gives back the list `ps` from a file made of a leading part
      without 'p' and the playlist section for `ps`. */
  lemma ParseFile(h: Bytes, ps: seq<Bytes>)
    requires forall i | 0 <= i < |h| :: h[i] != PTRK[0]
    requires AllEncodable(ps) && forall k | 0 <= k < |ps| :: 0 !in ps[k]
    ensures ParseSpec(h + Body(ps)) == ps
  {
    var c := h + Body(ps);
    var r := ParseSpec(c);
    MatchesOfFile(h, ps, c, Cuts(h, ps));
    forall k | 0 <= k < |ps| ensures r[k] == ps[k] {
      SongOfFile(h, ps, c, k);
    }
  }

  /** The round trip: for normalized absolute paths of 7-bit, nonzero
      characters, `parse(_buildSaveBuffer(ps))` gives back `ps`, same paths
      in the same order. */
  lemma ParseEncode(ps: seq<Bytes>)
    requires forall k | 0 <= k < |ps| :: CratePath(ps[k]) && |ps[k]| <= MAX_PATH_LENGTH
    ensures AllEncodable(ps)
    ensures ParseSpec(Encode(ps)) == ps
  {
    forall k | 0 <= k < |ps| ensures 0 !in ps[k] {
      assert forall i | 0 <= i < |ps[k]| :: ps[k][i] != 0;
    }
    HeaderLayout();
    ParseFile(HEADER, ps);
  }

  /** The empty crate: the header alone reads back as no songs. */
  lemma ParseHeader()
    ensures ParseSpec(HEADER) == []
  {
    ParseEncode([]);
    assert Encode([]) == HEADER;
  }
}
