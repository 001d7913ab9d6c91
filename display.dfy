/** The title-formatting fields `%foo_latin_title%` and `%foo_latin_album%`
    that expose the cache (latinize.cpp `metadb_display_field_provider_impl`). */
module Display {
  import opened Bytes
  import opened Records
  import Store

  /** `get_field_count`. */
  const FieldCount: nat := 2

  /** `get_field_name`: any other index is a bug check. */
  function FieldName(index: nat): (r: Bytes)
    requires index < FieldCount
    ensures index == 0 ==> r == "foo_latin_title"
    ensures index == 1 ==> r == "foo_latin_album"
  {
    if index == 0 then "foo_latin_title" else "foo_latin_album"
  }

  /** What `process_field_v2` writes for field `index` of a track whose keys
      are `trackKey` and `albumKey`, or `None` when it writes nothing: the
      title field shows the track's title; the album field shows the shared
      album value, and failing that the track's own album. */
  function FieldValue(c: Store.Cache, index: nat, trackKey: Key, albumKey: Key): Option<Bytes> {
    var rec := if trackKey in c.tracks then c.tracks[trackKey] else LatinRecord([], []);
    if index == 0 && trackKey in c.tracks && |rec.title| > 0 then Some(rec.title)
    else if index == 1 then
      if albumKey in c.albums && |c.albums[albumKey]| > 0 then Some(c.albums[albumKey])
      else if |rec.album| > 0 then Some(rec.album)
      else None
    else None
  }

  /** A field is never written empty; the title field is written exactly when
      the track has a non-empty cached title, whatever the album cache holds. */
  lemma TitleField(c: Store.Cache, trackKey: Key, albumKey: Key)
    ensures forall index :: FieldValue(c, index, trackKey, albumKey).Some? ==> FieldValue(c, index, trackKey, albumKey).value != []
    ensures FieldValue(c, 0, trackKey, albumKey).Some? <==> trackKey in c.tracks && c.tracks[trackKey].title != []
    ensures FieldValue(c, 0, trackKey, albumKey).Some? ==> FieldValue(c, 0, trackKey, albumKey).value == c.tracks[trackKey].title
    ensures forall other: Key :: FieldValue(c, 0, trackKey, albumKey) == FieldValue(c, 0, trackKey, other)
  {
  }

  /** The album field prefers a non-empty shared album value to the track's own
      album, shows the track's album otherwise, and nothing when both are empty
      or missing. Indices past the last field show nothing. */
  lemma AlbumField(c: Store.Cache, trackKey: Key, albumKey: Key)
    ensures albumKey in c.albums && c.albums[albumKey] != [] ==> FieldValue(c, 1, trackKey, albumKey) == Some(c.albums[albumKey])
    ensures !(albumKey in c.albums && c.albums[albumKey] != []) ==>
      FieldValue(c, 1, trackKey, albumKey) == if trackKey in c.tracks && c.tracks[trackKey].album != [] then Some(c.tracks[trackKey].album) else None
    ensures forall index :: index >= FieldCount ==> FieldValue(c, index, trackKey, albumKey) == None
  {
  }

  /** `process_field_v2`: nothing for a track without valid info; otherwise
      the store is loaded if need be and the field looked up in it. */
  method ProcessField(db: Store.LatinDb, infoValid: bool, index: nat, trackKey: Key, albumKey: Key,
                      configured: Bytes, fallback: Bytes, disk: map<Bytes, Bytes>) returns (r: Option<Bytes>)
    modifies db
    ensures !infoValid ==> r == None && db.State() == old(db.State()) && db.path == old(db.path) && db.loaded == old(db.loaded)
    ensures infoValid ==>
      && db.path == Store.DbPath(configured, fallback) && db.loaded
      && db.State() == Store.Ensured(old(db.State()), old(db.path), old(db.loaded), db.path, disk)
      && r == FieldValue(db.State(), index, trackKey, albumKey)
  {
    if !infoValid {
      return None;
    }
    db.EnsureLoaded(configured, fallback, disk);
    var rec := LatinRecord([], []);
    var got := db.GetTrack(trackKey);
    if got.Some? {
      rec := got.value;
      if index == 0 && |rec.title| > 0 {
        return Some(rec.title);
      }
    }
    if index == 1 {
      var album := db.GetAlbum(albumKey);
      if album.Some? && |album.value| > 0 {
        return Some(album.value);
      }
      if |rec.album| > 0 {
        return Some(rec.album);
      }
    }
    return None;
  }
}
