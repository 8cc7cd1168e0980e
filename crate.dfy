/** The `Crate` class (index.js): a named crate file whose list of song paths is
    loaded from the file at most once, grown by `addSong`, and written back as
    the header followed by one segment per path. The file system is not part of
    this model: the bytes read from the crate file are a parameter of
    `GetSongPathsSync`, and `BuildSaveBuffer` returns the bytes `save` writes. */
module CrateState {
  import opened Framing
  import opened Encoder
  import opened Decoder
  import opened RoundTrip

  datatype Option<T> = None | Some(value: T)

  /** The file name extension of a crate file, ".crate". */
  const CRATE_EXT: Bytes := [0x2e, 0x63, 0x72, 0x61, 0x74, 0x65]

  /** `path.join(dir, file)` for a file name without separators: one "/"
      between the two parts, none added when `dir` is empty or already ends
      with one. */
  function JoinPath(dir: Bytes, file: Bytes): (r: Bytes)
    ensures |r| >= |dir| + |file|
    ensures r[..|dir|] == dir && r[|r| - |file|..] == file
    ensures dir != [] && dir[|dir| - 1] != SLASH ==> |r| == |dir| + 1 + |file| && r[|dir|] == SLASH
  {
    if dir == [] || dir[|dir| - 1] == SLASH then dir + file else dir + [SLASH] + file
  }

  /** `path.resolve(p)` with `cwd` as the working directory: an absolute `p`
      stays as it is, the empty path is `cwd` itself, and a relative `p` is put
      under `cwd`. */
  function ResolveFrom(cwd: Bytes, p: Bytes): (r: Bytes)
    requires IsAbsolute(cwd)
    ensures IsAbsolute(r)
    ensures IsAbsolute(p) ==> r == p
    ensures p == [] ==> r == cwd
    ensures !IsAbsolute(p) && p != [] ==>
      |r| >= |cwd| + |p| && r[..|cwd|] == cwd && r[|r| - |p|..] == p && r[|r| - |p| - 1] == SLASH
  {
    if IsAbsolute(p) then p
    else if p == [] then cwd
    else JoinPath(cwd, p)
  }

  class Crate {
    /** Where the crate is stored: "<crates folder>/<name>.crate". */
    var filepath: Bytes
    var name: Bytes
    /** `None` until the list is first loaded or added to (`null` in the
        source), then the song paths in order. */
    var songPaths: Option<seq<Bytes>>

    /** Every listed path is absolute: `addSong` resolves what it is given and
        `parse` puts "/" in front of what it reads. */
    ghost predicate Valid()
      reads this
    {
      songPaths.Some? ==> forall k | 0 <= k < |songPaths.value| :: IsAbsolute(songPaths.value[k])
    }

    /** A crate called `name` in `subcratesFolder`, not yet loaded. */
    constructor (name: Bytes, subcratesFolder: Bytes)
      ensures this.name == name
      ensures filepath == JoinPath(subcratesFolder, name + CRATE_EXT)
      ensures songPaths == None
      ensures Valid()
    {
      this.filepath := JoinPath(subcratesFolder, name + CRATE_EXT);
      this.name := name;
      this.songPaths := None;
    }

    /** `getSongPathsSync`: parses `contents`, the bytes of the crate file, only
        when the list has not been loaded or added to yet; otherwise returns
        the list it already holds and leaves it as it is. */
    method GetSongPathsSync(contents: Bytes) returns (r: seq<Bytes>)
      requires Valid()
      modifies this
      ensures old(songPaths).Some? ==> r == old(songPaths).value
      ensures old(songPaths).None? ==> r == ParseSpec(contents)
      ensures songPaths == Some(r)
      ensures filepath == old(filepath) && name == old(name)
      ensures Valid()
    {
      if songPaths.None? {
        var parsed := Parse(contents);
        songPaths := Some(parsed);
      }
      r := songPaths.value;
    }

    /** `addSong`: starts an empty list if there is none, then appends the
        path resolved against the working directory `cwd`; the paths already
        listed stay as they are. */
    method AddSong(songPath: Bytes, cwd: Bytes)
      requires IsAbsolute(cwd)
      requires Valid()
      modifies this
      ensures songPaths.Some?
      ensures songPaths.value ==
        (if old(songPaths).None? then [] else old(songPaths).value) + [ResolveFrom(cwd, songPath)]
      ensures filepath == old(filepath) && name == old(name)
      ensures Valid()
    {
      if songPaths.None? {
        songPaths := Some([]);
      }
      var resolved := ResolveFrom(cwd, songPath);
      songPaths := Some(songPaths.value + [resolved]);
    }

    /** `_buildSaveBuffer`: the header, then for each path in order the
        "otrk" chunk holding its "ptrk" chunk. Without a list the source
        fails (it calls `forEach` on `null`); that is `None` here. Saved
        normalized paths read back as the same list. */
    method BuildSaveBuffer() returns (r: Option<Bytes>)
      requires Valid()
      requires songPaths.Some? ==>
        forall k | 0 <= k < |songPaths.value| :: |songPaths.value[k]| <= MAX_PATH_LENGTH
      ensures songPaths.None? <==> r.None?
      ensures songPaths.Some? ==> r == Some(Encode(songPaths.value))
      ensures songPaths.Some? && (forall k | 0 <= k < |songPaths.value| :: CratePath(songPaths.value[k])) ==>
        ParseSpec(r.value) == songPaths.value
    {
      if songPaths.None? {
        return None;
      }
      var ps := songPaths.value;
      assert AllEncodable(ps);
      var header := HEADER;
      var playlistSection: Bytes := [];
      var i := 0;
      while i < |ps|
        invariant 0 <= i <= |ps|
        invariant playlistSection == Flatten(Segments(ps)[..i])
      {
        var data := ToSeratoString(Relative(ps[i]));
        var ptrkSize := IntToHexbin(|data|);
        var otrkSize := IntToHexbin(|data| + 8);
        var segment := OTRK + otrkSize + PTRK + ptrkSize + data;
        assert segment == Segments(ps)[i];
        FlattenSnoc(Segments(ps), i);
        playlistSection := playlistSection + segment;
        i := i + 1;
      }
      assert Segments(ps)[..|ps|] == Segments(ps);
      r := Some(header + playlistSection);
      if forall k | 0 <= k < |ps| :: CratePath(ps[k]) {
        ParseEncode(ps);
      }
    }
  }
}
