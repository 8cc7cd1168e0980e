/** The crate decoder `parse` (index.js): it searches the whole file for the
    bytes "ptrk" and reads each song path from the bytes between one match
    and the next, without looking at any size field. */
module Decoder {
  import opened Framing

  /** `contents.slice(i, i + 4) === "ptrk"`: a whole "ptrk" starts at `i`. */
  predicate TagAt(c: Bytes, i: int)
  {
    0 <= i && i + 4 <= |c| && c[i..i + 4] == PTRK
  }

  /** `TagAt` is the test `parse` makes at every offset of the file: the
      four-byte slice starting there is "ptrk". */
  lemma TagAtIsSlice(c: Bytes, i: int)
    requires 0 <= i < |c|
    ensures TagAt(c, i) <==> JsSlice(c, i, i + 4) == PTRK
  {
    if i + 4 > |c| {
      assert |JsSlice(c, i, i + 4)| < 4;
    }
  }

  /** The offsets in `[lo, hi)` where "ptrk" starts, in ascending order
      (`MatchesInExact` states this). */
  function MatchesIn(c: Bytes, lo: int, hi: int): (r: seq<int>)
    requires lo <= hi
    ensures |r| <= hi - lo
    decreases hi - lo
  {
    if lo == hi then []
    else MatchesIn(c, lo, hi - 1) + (if TagAt(c, hi - 1) then [hi - 1] else [])
  }

  /** Every listed offset is a match inside the range, every match in the
      range is listed, and the list is strictly ascending. */
  lemma {:induction false} MatchesInExact(c: Bytes, lo: int, hi: int)
    requires lo <= hi
    ensures var r := MatchesIn(c, lo, hi);
      (forall k | 0 <= k < |r| :: lo <= r[k] < hi && TagAt(c, r[k])) &&
      (forall j | lo <= j < hi :: TagAt(c, j) <==> j in r) &&
      (forall k, m | 0 <= k < m < |r| :: r[k] < r[m])
    decreases hi - lo
  {
    if lo < hi {
      MatchesInExact(c, lo, hi - 1);
    }
  }

  /** All offsets of "ptrk" in the file, ascending (the `indices` of `parse`). */
  function Matches(c: Bytes): (r: seq<int>)
    ensures |r| <= |c|
  {
    MatchesIn(c, 0, |c|)
  }

  /** The song read for the match at position `k` of `indices`: the bytes from
      9 past the match up to 8 before the next match (or the end of the file
      for the last match), with zero bytes removed and "/" put in front. */
  function SongAt(c: Bytes, indices: seq<int>, k: int): (r: Bytes)
    requires 0 <= k < |indices|
    ensures IsAbsolute(r) && 0 !in r
  {
    var start := indices[k] + 9;
    var end := if k == |indices| - 1 then |c| else indices[k + 1] - 8;
    Resolve(StripZeros(JsSlice(c, start, end)))
  }

  /** What `parse` returns: one absolute, zero-free path per match of "ptrk",
      in the order of the matches. */
  function ParseSpec(c: Bytes): (r: seq<Bytes>)
    ensures |r| == |Matches(c)|
    ensures forall k | 0 <= k < |r| :: IsAbsolute(r[k]) && 0 !in r[k]
  {
    var m := Matches(c);
    seq(|m|, k requires 0 <= k < |m| => SongAt(c, m, k))
  }

  /** `parse`: first collects the offsets of "ptrk", then slices out the song
      between each one and the next. */
  method Parse(contents: Bytes) returns (songs: seq<Bytes>)
    ensures songs == ParseSpec(contents)
    ensures |songs| == |Matches(contents)|
  {
    var indices: seq<int> := [];
    var i := 0;
    while i < |contents|
      invariant 0 <= i <= |contents|
      invariant indices == MatchesIn(contents, 0, i)
    {
      TagAtIsSlice(contents, i);
      if JsSlice(contents, i, i + 4) == PTRK {
        indices := indices + [i];
      }
      i := i + 1;
    }

    assert indices == Matches(contents);
    songs := [];
    var index := 0;
    while index < |indices|
      invariant 0 <= index <= |indices|
      invariant |songs| == index
      invariant forall k | 0 <= k < index :: songs[k] == SongAt(contents, indices, k)
    {
      var start := indices[index] + 9;
      var isLast := index == |indices| - 1;
      var end := if isLast then |contents| else indices[index + 1] - 8;
      var filepath := JsSlice(contents, start, end);
      filepath := StripZeros(filepath);
      assert Resolve(filepath) == SongAt(contents, indices, index);
      songs := songs + [Resolve(filepath)];
      index := index + 1;
    }
  }

  /** The matches of a range split at any point between its ends. */
  lemma {:induction false} MatchesInSplit(c: Bytes, lo: int, mid: int, hi: int)
    requires lo <= mid <= hi
    ensures MatchesIn(c, lo, hi) == MatchesIn(c, lo, mid) + MatchesIn(c, mid, hi)
    decreases hi - mid
  {
    if hi > mid {
      MatchesInSplit(c, lo, mid, hi - 1);
    }
  }

  /** The matches of two neighbouring ranges, the second with a single match. */
  lemma MatchesInAppend(c: Bytes, lo: int, mid: int, hi: int, m0: seq<int>, x: int)
    requires lo <= mid <= hi
    requires MatchesIn(c, lo, mid) == m0 && MatchesIn(c, mid, hi) == [x]
    ensures MatchesIn(c, lo, hi) == m0 + [x]
  {
    MatchesInSplit(c, lo, mid, hi);
  }

  /** A file cut at offsets `o[0] < o[1] < ... < o[n]`, with no match before
      `o[0]` and exactly one match, 8 bytes into it, in each piece: its
      matches up to `o[k]` are the offsets `o[i] + 8` of the first `k` pieces. */
  lemma {:induction false} MatchesInChain(c: Bytes, o: seq<int>, k: int)
    requires |o| > 0 && 0 <= o[0] && 0 <= k < |o|
    requires MatchesIn(c, 0, o[0]) == []
    requires forall i | 0 <= i < |o| - 1 :: o[i] <= o[i + 1]
    requires forall i | 0 <= i < |o| - 1 :: MatchesIn(c, o[i], o[i + 1]) == [o[i] + 8]
    ensures 0 <= o[k]
    ensures MatchesIn(c, 0, o[k]) == seq(k, i requires 0 <= i < k => o[i] + 8)
    decreases k
  {
    if k > 0 {
      MatchesInChain(c, o, k - 1);
      var prev := seq(k - 1, i requires 0 <= i < k - 1 => o[i] + 8);
      MatchesInAppend(c, 0, o[k - 1], o[k], prev, o[k - 1] + 8);
      assert prev + [o[k - 1] + 8] == seq(k, i requires 0 <= i < k => o[i] + 8);
    }
  }

  /** A range in which "ptrk" never starts has no matches. */
  lemma {:induction false} MatchesInNone(c: Bytes, lo: int, hi: int)
    requires lo <= hi
    requires forall j | lo <= j < hi :: !TagAt(c, j)
    ensures MatchesIn(c, lo, hi) == []
    decreases hi - lo
  {
    if lo < hi {
      MatchesInNone(c, lo, hi - 1);
    }
  }

  /** A range in which "ptrk" starts at `x` alone has `x` as its one match. */
  lemma MatchesInSingle(c: Bytes, lo: int, x: int, hi: int)
    requires lo <= x < hi
    requires forall j | lo <= j < hi :: TagAt(c, j) <==> j == x
    ensures MatchesIn(c, lo, hi) == [x]
  {
    MatchesInSplit(c, lo, x, hi);
    MatchesInSplit(c, x, x + 1, hi);
    MatchesInNone(c, lo, x);
    MatchesInNone(c, x + 1, hi);
    assert MatchesIn(c, x, x + 1) == MatchesIn(c, x, x) + [x];
  }

  /** A file in which "ptrk" never occurs decodes to no songs. */
  lemma ParseWithoutTag(c: Bytes)
    requires forall j | 0 <= j < |c| :: !TagAt(c, j)
    ensures ParseSpec(c) == []
  {
    MatchesInNone(c, 0, |c|);
  }
}
