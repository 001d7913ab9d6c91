/** The cache store `latin_db` (latinize.cpp): the track map, the album map,
    the dirty flag, the database path and whether it was loaded, and the file
    on disk behind them. */
module Store {
  import opened Bytes
  import opened Records
  import Codec
  import Text

  // ---------------------------------------------------------------------------
  // Where the database lives

  const Scheme: Bytes := "://"
  const FileScheme: Bytes := "file://"

  /** `normalize_db_path`: a path becomes a `file://` URL unless it already
      holds `://`. */
  function NormalizeDbPath(p: Bytes): Bytes {
    if Contains(p, Scheme) then p else FileScheme + p
  }

  /** A normalised path is a URL ending with the path it was given, and a path
      that already is a URL is kept as it is. */
  lemma NormalizedIsUrl(p: Bytes)
    ensures Contains(NormalizeDbPath(p), Scheme)
    ensures NormalizeDbPath(p) == p <==> Contains(p, Scheme)
    ensures |p| <= |NormalizeDbPath(p)| && NormalizeDbPath(p)[|NormalizeDbPath(p)| - |p|..] == p
  {
    if !Contains(p, Scheme) {
      var u := FileScheme + p;
      assert OccursAt(u, Scheme, 4);
      ContainsIff(u, Scheme);
      assert u[|u| - |p|..] == p;
    }
  }

  /** Normalising twice is normalising once. */
  lemma NormalizeIdempotent(p: Bytes)
    ensures NormalizeDbPath(NormalizeDbPath(p)) == NormalizeDbPath(p)
  {
    NormalizedIsUrl(p);
  }

  /** `get_db_path`: the configured path, or the profile default when none is
      configured, as a URL. */
  function DbPath(configured: Bytes, fallback: Bytes): (r: Bytes)
    ensures Contains(r, Scheme)
    ensures |configured| > 0 ==> r == NormalizeDbPath(configured)
    ensures |configured| == 0 ==> r == NormalizeDbPath(fallback)
  {
    var p := if |configured| == 0 then fallback else configured;
    NormalizedIsUrl(p);
    NormalizeDbPath(p)
  }

  // ---------------------------------------------------------------------------
  // The contents of the store and what each operation makes of them

  /** `m_tracks`, `m_albums` and `m_dirty`. */
  datatype Cache = Cache(tracks: map<Key, LatinRecord>, albums: map<Key, Bytes>, dirty: bool)

  /** A store after an operation, and whether the operation reports a change. */
  datatype Change = Change(cache: Cache, changed: bool)

  /** `set_track`: a record equal to the one the key holds changes nothing;
      any other is written and marks the store dirty. */
  function PutTrack(c: Cache, k: Key, rec: LatinRecord): Cache {
    if k in c.tracks && c.tracks[k] == rec then c
    else c.(tracks := c.tracks[k := rec], dirty := true)
  }

  /** `set_album`, the same rule on the album map. */
  function PutAlbum(c: Cache, k: Key, album: Bytes): Cache {
    if k in c.albums && c.albums[k] == album then c
    else c.(albums := c.albums[k := album], dirty := true)
  }

  /** `update_entry`: the edited fields go through `sanitize_latin` and are then
      written as `set_track` / `set_album` write; reports whether it wrote. An
      album entry's title is ignored. */
  function Update(c: Cache, e: CacheEntry): Change {
    if e.isTrack then
      var rec := LatinRecord(Text.Sanitize(e.title), Text.Sanitize(e.album));
      Change(PutTrack(c, e.key, rec), !(e.key in c.tracks && c.tracks[e.key] == rec))
    else
      var album := Text.Sanitize(e.album);
      Change(PutAlbum(c, e.key, album), !(e.key in c.albums && c.albums[e.key] == album))
  }

  /** `delete_entry`: removes the key from the chosen map when it is there. */
  function Delete(c: Cache, isTrack: bool, k: Key): Change {
    if isTrack then
      if k in c.tracks then Change(c.(tracks := c.tracks - {k}, dirty := true), true) else Change(c, false)
    else
      if k in c.albums then Change(c.(albums := c.albums - {k}, dirty := true), true) else Change(c, false)
  }

  /** `clear_all`: an empty store stays as it is, dirty flag included. */
  function Cleared(c: Cache): Cache {
    if c.tracks == map[] && c.albums == map[] then c else Cache(map[], map[], true)
  }

  /** Write-if-different: `set_track` changes nothing at all exactly when the
      key already holds that record; otherwise it changes that key alone, to
      the record, and marks the store dirty. The album map never changes. */
  lemma PutTrackFrame(c: Cache, k: Key, rec: LatinRecord)
    ensures var r := PutTrack(c, k, rec);
      && (r == c <==> k in c.tracks && c.tracks[k] == rec)
      && r.tracks == c.tracks[k := rec] && r.albums == c.albums
      && (r.dirty <==> c.dirty || r != c)
  {
    var r := PutTrack(c, k, rec);
    if !(k in c.tracks && c.tracks[k] == rec) {
      assert r.tracks[k] == rec;
    }
  }

  /** The same for `set_album`. */
  lemma PutAlbumFrame(c: Cache, k: Key, album: Bytes)
    ensures var r := PutAlbum(c, k, album);
      && (r == c <==> k in c.albums && c.albums[k] == album)
      && r.albums == c.albums[k := album] && r.tracks == c.tracks
      && (r.dirty <==> c.dirty || r != c)
  {
    var r := PutAlbum(c, k, album);
    if !(k in c.albums && c.albums[k] == album) {
      assert r.albums[k] == album;
    }
  }

  /** An `update_entry` that reports a write leaves the store dirty; one that
      reports none leaves it as it was. */
  lemma UpdateMarksDirty(c: Cache, e: CacheEntry)
    ensures Update(c, e).changed ==> Update(c, e).cache.dirty
    ensures !Update(c, e).changed ==> Update(c, e).cache == c
  {
  }

  /** `update_entry` stores the sanitised fields (so only canonical text),
      reports a change exactly when the store changed, touches only the chosen
      map and key, and applying the same edit again writes nothing. */
  lemma UpdateSanitizes(c: Cache, e: CacheEntry)
    ensures var u := Update(c, e);
      && (u.changed <==> u.cache != c)
      && (u.cache.dirty <==> c.dirty || u.changed)
      && (e.isTrack ==>
            && u.cache.tracks == c.tracks[e.key := LatinRecord(Text.Sanitize(e.title), Text.Sanitize(e.album))]
            && u.cache.albums == c.albums
            && Text.Canonical(u.cache.tracks[e.key].title) && Text.Canonical(u.cache.tracks[e.key].album))
      && (!e.isTrack ==>
            && u.cache.albums == c.albums[e.key := Text.Sanitize(e.album)]
            && u.cache.tracks == c.tracks
            && Text.Canonical(u.cache.albums[e.key]))
      && Update(u.cache, e) == Change(u.cache, false)
  {
    Text.SanitizeCanonical(e.title);
    Text.SanitizeCanonical(e.album);
    if e.isTrack {
      PutTrackFrame(c, e.key, LatinRecord(Text.Sanitize(e.title), Text.Sanitize(e.album)));
    } else {
      PutAlbumFrame(c, e.key, Text.Sanitize(e.album));
    }
  }

  /** `delete_entry` reports true exactly when the key was in the chosen map,
      removes that key alone, leaves the other map as it was, and marks the
      store dirty only when it removed something. */
  lemma DeleteFrame(c: Cache, isTrack: bool, k: Key)
    ensures var d := Delete(c, isTrack, k);
      && (d.changed <==> if isTrack then k in c.tracks else k in c.albums)
      && (d.cache.dirty <==> c.dirty || d.changed)
      && (isTrack ==> d.cache.tracks == c.tracks - {k} && d.cache.albums == c.albums)
      && (!isTrack ==> d.cache.albums == c.albums - {k} && d.cache.tracks == c.tracks)
  {
    if isTrack && k !in c.tracks {
      assert c.tracks - {k} == c.tracks;
    } else if !isTrack && k !in c.albums {
      assert c.albums - {k} == c.albums;
    }
  }

  /** `clear_all` empties both maps, and sets the dirty flag exactly when there
      was something to remove. */
  lemma ClearedFrame(c: Cache)
    ensures Cleared(c).tracks == map[] && Cleared(c).albums == map[]
    ensures Cleared(c).dirty <==> c.dirty || c.tracks != map[] || c.albums != map[]
  {
  }

  // ---------------------------------------------------------------------------
  // Snapshots

  function TrackRow(k: Key, rec: LatinRecord): CacheEntry {
    CacheEntry(true, k, rec.title, rec.album)
  }

  /** An album row carries no title. */
  function AlbumRow(k: Key, album: Bytes): CacheEntry {
    CacheEntry(false, k, [], album)
  }

  /** `rows` are `row` applied to the keys of `order`, one by one. */
  predicate RowsOf<V>(rows: seq<CacheEntry>, m: map<Key, V>, order: seq<Key>, row: (Key, V) -> CacheEntry) {
    Codec.Enumerates(order, m) && |rows| == |order|
    && forall i :: 0 <= i < |order| ==> rows[i] == row(order[i], m[order[i]])
  }

  /** `snapshot`: every track row in the track map's iteration order, then
      every album row in the album map's. */
  predicate SnapshotOf(rows: seq<CacheEntry>, c: Cache, tOrder: seq<Key>, aOrder: seq<Key>) {
    |tOrder| <= |rows| && RowsOf(rows[..|tOrder|], c.tracks, tOrder, TrackRow)
    && RowsOf(rows[|tOrder|..], c.albums, aOrder, AlbumRow)
  }

  /** A row of a snapshot, read back against the store. */
  predicate Lists(c: Cache, e: CacheEntry) {
    if e.isTrack then e.key in c.tracks && e == TrackRow(e.key, c.tracks[e.key])
    else e.key in c.albums && e == AlbumRow(e.key, c.albums[e.key])
  }

  /** Every key of the map has its row among `rows`. */
  lemma RowsCover<V>(rows: seq<CacheEntry>, m: map<Key, V>, order: seq<Key>, row: (Key, V) -> CacheEntry)
    requires RowsOf(rows, m, order, row)
    ensures forall k :: k in m ==> row(k, m[k]) in rows
  {
    forall k | k in m
      ensures row(k, m[k]) in rows
    {
      var i :| 0 <= i < |order| && order[i] == k;
      assert rows[i] == row(k, m[k]);
    }
  }

  /** Every row of a snapshot is a cached value. */
  lemma SnapshotListed(rows: seq<CacheEntry>, c: Cache, tOrder: seq<Key>, aOrder: seq<Key>, j: nat)
    requires SnapshotOf(rows, c, tOrder, aOrder) && j < |rows|
    ensures Lists(c, rows[j])
  {
    var n := |tOrder|;
    if j < n {
      assert rows[j] == rows[..n][j];
    } else {
      assert rows[j] == rows[n..][j - n];
    }
  }

  /** Every track and every album of the store has its row in a snapshot. */
  lemma SnapshotHasAll(rows: seq<CacheEntry>, c: Cache, tOrder: seq<Key>, aOrder: seq<Key>)
    requires SnapshotOf(rows, c, tOrder, aOrder)
    ensures forall k :: k in c.tracks ==> TrackRow(k, c.tracks[k]) in rows
    ensures forall k :: k in c.albums ==> AlbumRow(k, c.albums[k]) in rows
  {
    var n := |tOrder|;
    RowsCover(rows[..n], c.tracks, tOrder, TrackRow);
    RowsCover(rows[n..], c.albums, aOrder, AlbumRow);
    assert rows == rows[..n] + rows[n..];
  }

  /** Every row of a snapshot is a cached value. */
  lemma SnapshotOnlyCached(rows: seq<CacheEntry>, c: Cache, tOrder: seq<Key>, aOrder: seq<Key>)
    requires SnapshotOf(rows, c, tOrder, aOrder)
    ensures forall e :: e in rows ==> Lists(c, e)
  {
    forall e | e in rows
      ensures Lists(c, e)
    {
      var j :| 0 <= j < |rows| && rows[j] == e;
      SnapshotListed(rows, c, tOrder, aOrder, j);
    }
  }

  /** A snapshot holds one row per cached key, every cached value is in it, and
      every row in it is a cached value. */
  lemma SnapshotComplete(rows: seq<CacheEntry>, c: Cache, tOrder: seq<Key>, aOrder: seq<Key>)
    requires SnapshotOf(rows, c, tOrder, aOrder)
    ensures |rows| == |c.tracks| + |c.albums|
    ensures forall k :: k in c.tracks ==> TrackRow(k, c.tracks[k]) in rows
    ensures forall k :: k in c.albums ==> AlbumRow(k, c.albums[k]) in rows
    ensures forall e :: e in rows ==> Lists(c, e)
  {
    Codec.EnumeratesCard(tOrder, c.tracks);
    Codec.EnumeratesCard(aOrder, c.albums);
    SnapshotHasAll(rows, c, tOrder, aOrder);
    SnapshotOnlyCached(rows, c, tOrder, aOrder);
  }

  /** One loop of `snapshot` over a map: a row per key, in the order the loop
      visits the keys (which it returns). */
  method ListRows<V>(m: map<Key, V>, row: (Key, V) -> CacheEntry) returns (rows: seq<CacheEntry>, order: seq<Key>)
    ensures RowsOf(rows, m, order, row)
  {
    rows, order := [], [];
    var left := m.Keys;
    while left != {}
      invariant left <= m.Keys
      invariant Codec.Distinct(order) && Codec.Within(order, m)
      invariant forall k :: k in m ==> (k in left <==> k !in order)
      invariant |rows| == |order|
      invariant forall i :: 0 <= i < |order| ==> rows[i] == row(order[i], m[order[i]])
      decreases |left|
    {
      var k :| k in left;
      rows := rows + [row(k, m[k])];
      order := order + [k];
      left := left - {k};
    }
  }

  // ---------------------------------------------------------------------------
  // The file

  /** How writing the file ends: committed; the open failed, and so did the
      `file://` fallback by throwing (the file is left as it was); or a write
      failed after `count` bytes (the file was created afresh and holds what got
      written). The `exception_io` of these failures is swallowed. The fallback
      that finds no other path opens nothing and then writes through a null `file::ptr`;
      that crash is not one of these outcomes. */
  datatype WriteOutcome = Committed | OpenFailed | FailedAfter(count: nat)

  /** The files after writing `f` to `p`. */
  function WriteFile(disk: map<Bytes, Bytes>, p: Bytes, f: Bytes, w: WriteOutcome): map<Bytes, Bytes> {
    match w
    case Committed => disk[p := f]
    case OpenFailed => disk
    case FailedAfter(n) => disk[p := if n < |f| then f[..n] else f]
  }

  /** `save_locked` wrote the store `c` to `p`, iterating the maps in some order. */
  ghost predicate Saved(disk: map<Bytes, Bytes>, p: Bytes, c: Cache, w: WriteOutcome, disk': map<Bytes, Bytes>) {
    exists tOrder, aOrder ::
      Codec.Enumerates(tOrder, c.tracks) && Codec.Enumerates(aOrder, c.albums)
      && disk' == WriteFile(disk, p, Codec.Encode(c.tracks, tOrder, c.albums, aOrder), w)
  }

  /** What `load_locked` finds at `p`, with the dirty flag `ensure_loaded` clears:
      a file that cannot be opened, or does not parse, gives an empty store. */
  function Reloaded(disk: map<Bytes, Bytes>, p: Bytes): (c: Cache)
    ensures !c.dirty
    ensures p !in disk ==> c == Cache(map[], map[], false)
  {
    var l := if p in disk then Codec.Decode(disk[p]) else Codec.Empty;
    Cache(l.tracks, l.albums, false)
  }

  /** A committed save loads back as the same store; a failed open leaves the
      files as they were; a write that fails part-way leaves a file that loads
      either as the whole store or as an empty one, never as part of it. No
      other file changes. */
  lemma SaveReloads(disk: map<Bytes, Bytes>, p: Bytes, c: Cache, w: WriteOutcome, disk': map<Bytes, Bytes>)
    requires Saved(disk, p, c, w, disk') && Codec.Fits(c.tracks, c.albums)
    ensures w.Committed? ==> Reloaded(disk', p) == c.(dirty := false)
    ensures w.OpenFailed? ==> disk' == disk
    ensures w.FailedAfter? ==> Reloaded(disk', p) in {c.(dirty := false), Cache(map[], map[], false)}
    ensures forall q :: q != p ==> (q in disk' <==> q in disk) && (q in disk ==> disk'[q] == disk[q])
  {
    var tOrder, aOrder :| Codec.Enumerates(tOrder, c.tracks) && Codec.Enumerates(aOrder, c.albums)
      && disk' == WriteFile(disk, p, Codec.Encode(c.tracks, tOrder, c.albums, aOrder), w);
    var f := Codec.Encode(c.tracks, tOrder, c.albums, aOrder);
    Codec.DecodeEncode(c.tracks, tOrder, c.albums, aOrder);
    if w.FailedAfter? && w.count < |f| {
      Codec.TruncatedDecode(c.tracks, tOrder, c.albums, aOrder, w.count);
    }
  }

  /** The store `ensure_loaded` leaves: the same one when it is loaded from the
      same path, else the one read afresh from `p`. */
  function Ensured(c: Cache, path: Bytes, loaded: bool, p: Bytes, disk: map<Bytes, Bytes>): Cache {
    if loaded && path == p then c else Reloaded(disk, p)
  }

  // ---------------------------------------------------------------------------
  // The store object

  class LatinDb {
    var path: Bytes
    var loaded: bool
    var dirty: bool
    var tracks: map<Key, LatinRecord>
    var albums: map<Key, Bytes>

    /** The static `g_db` before anything ran: nothing loaded, nothing cached. */
    constructor()
      ensures path == [] && !loaded && State() == Cache(map[], map[], false)
    {
      path, loaded, dirty := [], false, false;
      tracks, albums := map[], map[];
    }

    function State(): Cache
      reads this
    {
      Cache(tracks, albums, dirty)
    }

    /** `ensure_loaded`: nothing happens when the effective path is the one
        already loaded; otherwise the store is emptied, cleaned and read from
        that path's file. */
    method EnsureLoaded(configured: Bytes, fallback: Bytes, disk: map<Bytes, Bytes>)
      modifies this
      ensures path == DbPath(configured, fallback) && loaded
      ensures State() == Ensured(old(State()), old(path), old(loaded), path, disk)
    {
      var p := DbPath(configured, fallback);
      if loaded && path == p {
        return;
      }
      path, loaded, dirty := p, true, false;
      tracks, albums := map[], map[];
      if p in disk {
        tracks, albums := Codec.Load(disk[p]);
      }
    }

    /** `get_track`. */
    function GetTrack(k: Key): (r: Option<LatinRecord>)
      reads this
      ensures r.Some? <==> k in tracks
      ensures r.Some? ==> r.value == tracks[k]
    {
      if k in tracks then Some(tracks[k]) else None
    }

    /** `get_album`. */
    function GetAlbum(k: Key): (r: Option<Bytes>)
      reads this
      ensures r.Some? <==> k in albums
      ensures r.Some? ==> r.value == albums[k]
    {
      if k in albums then Some(albums[k]) else None
    }

    /** `set_track`. */
    method SetTrack(k: Key, rec: LatinRecord)
      modifies this`tracks, this`dirty
      ensures State() == PutTrack(old(State()), k, rec)
    {
      if k in tracks && tracks[k].title == rec.title && tracks[k].album == rec.album {
        return;
      }
      tracks := tracks[k := rec];
      dirty := true;
    }

    /** `set_album`. */
    method SetAlbum(k: Key, album: Bytes)
      modifies this`albums, this`dirty
      ensures State() == PutAlbum(old(State()), k, album)
    {
      if k in albums && albums[k] == album {
        return;
      }
      albums := albums[k := album];
      dirty := true;
    }

    /** `update_entry`. */
    method UpdateEntry(e: CacheEntry) returns (changed: bool)
      modifies this`tracks, this`albums, this`dirty
      ensures Change(State(), changed) == Update(old(State()), e)
    {
      if e.isTrack {
        var title := Text.SanitizeLatin(e.title);
        var album := Text.SanitizeLatin(e.album);
        var rec := LatinRecord(title, album);
        if e.key in tracks && tracks[e.key].title == rec.title && tracks[e.key].album == rec.album {
          return false;
        }
        tracks := tracks[e.key := rec];
        dirty := true;
        return true;
      } else {
        var album := Text.SanitizeLatin(e.album);
        if e.key in albums && albums[e.key] == album {
          return false;
        }
        albums := albums[e.key := album];
        dirty := true;
        return true;
      }
    }

    /** `delete_entry`. */
    method DeleteEntry(isTrack: bool, k: Key) returns (changed: bool)
      modifies this`tracks, this`albums, this`dirty
      ensures Change(State(), changed) == Delete(old(State()), isTrack, k)
    {
      if isTrack {
        if k !in tracks {
          return false;
        }
        tracks := tracks - {k};
      } else {
        if k !in albums {
          return false;
        }
        albums := albums - {k};
      }
      dirty := true;
      return true;
    }

    /** `clear_all`. */
    method ClearAll()
      modifies this`tracks, this`albums, this`dirty
      ensures State() == Cleared(old(State()))
    {
      if tracks == map[] && albums == map[] {
        return;
      }
      tracks, albums := map[], map[];
      dirty := true;
    }

    /** `snapshot`: the rows of the whole store, tracks first, with the
        iteration orders it used. */
    method Snapshot() returns (rows: seq<CacheEntry>, tOrder: seq<Key>, aOrder: seq<Key>)
      ensures SnapshotOf(rows, State(), tOrder, aOrder)
    {
      var trackRows, albumRows;
      trackRows, tOrder := ListRows(tracks, TrackRow);
      albumRows, aOrder := ListRows(albums, AlbumRow);
      rows := trackRows + albumRows;
      assert rows[..|tOrder|] == trackRows;
      assert rows[|tOrder|..] == albumRows;
    }

    /** `save_locked` with the file at `path`: the encoded store, written as
        `w` says; a failure that throws `exception_io` is swallowed. */
    method SaveLocked(disk: map<Bytes, Bytes>, w: WriteOutcome) returns (disk': map<Bytes, Bytes>)
      ensures Saved(disk, path, State(), w, disk')
    {
      var f, tOrder, aOrder := Codec.Save(tracks, albums);
      disk' := WriteFile(disk, path, f, w);
      assert Codec.Enumerates(tOrder, State().tracks) && Codec.Enumerates(aOrder, State().albums)
        && disk' == WriteFile(disk, path, Codec.Encode(State().tracks, tOrder, State().albums, aOrder), w);
    }

    /** `save_if_dirty`: a clean store writes nothing; a dirty one is saved and
        then marked clean, whether or not the write went through. */
    method SaveIfDirty(disk: map<Bytes, Bytes>, w: WriteOutcome) returns (disk': map<Bytes, Bytes>)
      modifies this`dirty
      ensures !dirty
      ensures old(dirty) ==> Saved(disk, path, old(State()), w, disk')
      ensures !old(dirty) ==> disk' == disk
    {
      if !dirty {
        return disk;
      }
      disk' := SaveLocked(disk, w);
      dirty := false;
    }
  }
}
