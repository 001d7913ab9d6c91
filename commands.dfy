/** The component's entry points (latinize.cpp, namespace `foo_latinize`):
    the cache-page facades, the one-shot test request, and the four
    context-menu commands, each on the one store `g_db`. */
module Commands {
  import opened Bytes
  import opened Records
  import Store
  import Request
  import Workers
  import Text
  import Response

  // ---------------------------------------------------------------------------
  // The cache page's view of the store

  /** `get_cache_snapshot`: the rows of the loaded store. */
  method GetCacheSnapshot(db: Store.LatinDb, configured: Bytes, fallback: Bytes, disk: map<Bytes, Bytes>)
    returns (rows: seq<CacheEntry>, tOrder: seq<Key>, aOrder: seq<Key>)
    modifies db
    ensures db.path == Store.DbPath(configured, fallback) && db.loaded
    ensures db.State() == Store.Ensured(old(db.State()), old(db.path), old(db.loaded), db.path, disk)
    ensures Store.SnapshotOf(rows, db.State(), tOrder, aOrder)
  {
    db.EnsureLoaded(configured, fallback, disk);
    rows, tOrder, aOrder := db.Snapshot();
  }

  /** `update_cache_entry`: an edit that changes the store is saved at once. */
  method UpdateCacheEntry(db: Store.LatinDb, e: CacheEntry, configured: Bytes, fallback: Bytes,
                          disk: map<Bytes, Bytes>, w: Store.WriteOutcome) returns (changed: bool, disk': map<Bytes, Bytes>)
    modifies db
    ensures db.path == Store.DbPath(configured, fallback) && db.loaded
    ensures var u := Store.Update(Store.Ensured(old(db.State()), old(db.path), old(db.loaded), db.path, disk), e);
      && changed == u.changed && db.tracks == u.cache.tracks && db.albums == u.cache.albums
      && (changed ==> !db.dirty && Store.Saved(disk, db.path, u.cache, w, disk'))
      && (!changed ==> db.dirty == u.cache.dirty && disk' == disk)
  {
    db.EnsureLoaded(configured, fallback, disk);
    changed, disk' := UpdateAndSave(db, e, disk, w);
  }

  /** The edit of `update_cache_entry` on the loaded store, then its save. */
  method UpdateAndSave(db: Store.LatinDb, e: CacheEntry, disk: map<Bytes, Bytes>, w: Store.WriteOutcome)
    returns (changed: bool, disk': map<Bytes, Bytes>)
    modifies db`tracks, db`albums, db`dirty
    ensures var u := Store.Update(old(db.State()), e);
      && changed == u.changed && db.tracks == u.cache.tracks && db.albums == u.cache.albums
      && (changed ==> !db.dirty && Store.Saved(disk, db.path, u.cache, w, disk'))
      && (!changed ==> db.dirty == u.cache.dirty && disk' == disk)
  {
    Store.UpdateMarksDirty(db.State(), e);
    changed := db.UpdateEntry(e);
    disk' := SaveEdit(db, changed, disk, w);
  }

  /** The tail the edit facades share: save when the edit changed the store. */
  method SaveEdit(db: Store.LatinDb, changed: bool, disk: map<Bytes, Bytes>, w: Store.WriteOutcome)
    returns (disk': map<Bytes, Bytes>)
    requires changed ==> db.dirty
    modifies db`dirty
    ensures changed ==> !db.dirty && Store.Saved(disk, db.path, old(db.State()).(dirty := false), w, disk')
    ensures !changed ==> db.dirty == old(db.dirty) && disk' == disk
  {
    disk' := disk;
    if changed {
      disk' := db.SaveIfDirty(disk, w);
    }
  }

  /** `delete_cache_entry`: a deletion that removed something is saved at once. */
  method DeleteCacheEntry(db: Store.LatinDb, isTrack: bool, k: Key, configured: Bytes, fallback: Bytes,
                          disk: map<Bytes, Bytes>, w: Store.WriteOutcome) returns (changed: bool, disk': map<Bytes, Bytes>)
    modifies db
    ensures db.path == Store.DbPath(configured, fallback) && db.loaded
    ensures var d := Store.Delete(Store.Ensured(old(db.State()), old(db.path), old(db.loaded), db.path, disk), isTrack, k);
      && changed == d.changed && db.tracks == d.cache.tracks && db.albums == d.cache.albums
      && (changed ==> !db.dirty && Store.Saved(disk, db.path, d.cache, w, disk'))
      && (!changed ==> db.dirty == d.cache.dirty && disk' == disk)
  {
    db.EnsureLoaded(configured, fallback, disk);
    changed := db.DeleteEntry(isTrack, k);
    disk' := SaveEdit(db, changed, disk, w);
  }

  /** `clear_cache`: empties the store and saves it when that, or anything
      before it, left it dirty. */
  method ClearCache(db: Store.LatinDb, configured: Bytes, fallback: Bytes, disk: map<Bytes, Bytes>, w: Store.WriteOutcome)
    returns (disk': map<Bytes, Bytes>)
    modifies db
    ensures db.path == Store.DbPath(configured, fallback) && db.loaded
    ensures db.tracks == map[] && db.albums == map[] && !db.dirty
    ensures var c := Store.Cleared(Store.Ensured(old(db.State()), old(db.path), old(db.loaded), db.path, disk));
      if c.dirty then Store.Saved(disk, db.path, c, w, disk') else disk' == disk
  {
    db.EnsureLoaded(configured, fallback, disk);
    db.ClearAll();
    disk' := db.SaveIfDirty(disk, w);
  }

  // ---------------------------------------------------------------------------
  // The test page

  /** What the test page shows: the latinised fields, or an error text. */
  datatype TestReport = Passed(title: Bytes, album: Bytes) | Refused(error: Bytes)

  const RequestFailedMessage: Bytes := "Request failed."
  const AbortedMessage: Bytes := "Aborted."

  /** `test_latinize` once its request's HTTP exchange has given `t`. */
  function TestLatinize(apiUrl: Bytes, t: Request.Transport): TestReport {
    match Request.RequestOutcome(apiUrl, t)
    case Latinized(rec) => Passed(rec.title, rec.album)
    case Failed(error) => Refused(if |error| == 0 then RequestFailedMessage else error)
    case Aborted => Refused(AbortedMessage)
  }

  /** The test passes exactly when the URL is set, the reply has a 2xx status
      line and its body parses; it then shows canonical fields, at least one
      of them non-empty. A refusal always explains itself. */
  lemma TestReportIff(apiUrl: Bytes, t: Request.Transport)
    ensures TestLatinize(apiUrl, t).Passed? <==>
      |apiUrl| > 0 && t.Delivered? && Request.SuccessLine(t.statusLine) && Response.ParseResponse(t.response).Some?
    ensures TestLatinize(apiUrl, t).Passed? ==>
      var r := TestLatinize(apiUrl, t);
      Text.Canonical(r.title) && Text.Canonical(r.album) && (r.title != [] || r.album != [])
    ensures TestLatinize(apiUrl, t).Refused? ==> TestLatinize(apiUrl, t).error != []
  {
    Request.LatinizedIff(apiUrl, t);
  }

  // ---------------------------------------------------------------------------
  // The context-menu commands

  /** `RunLatinize`: nothing for an empty selection; otherwise load the store
      and run the latinize worker over a copy of the selection. */
  method RunLatinize(db: Store.LatinDb, items: seq<Workers.Item>, configured: Bytes, fallback: Bytes,
                     apiUrl: Bytes, exchange: (nat, Bytes, Bytes) -> Request.Transport, cancelAt: Option<nat>,
                     disk: map<Bytes, Bytes>, w: Store.WriteOutcome)
    returns (started: bool, changed: seq<Workers.Handle>, progress: seq<nat>, completed: bool, disk': map<Bytes, Bytes>)
    modifies db
    ensures started <==> |items| > 0
    ensures !started ==>
      && db.State() == old(db.State()) && db.path == old(db.path) && db.loaded == old(db.loaded)
      && changed == [] && !completed && disk' == disk
    ensures started ==>
      && db.path == Store.DbPath(configured, fallback) && db.loaded
      && Workers.Ended(Workers.Run(Store.Ensured(old(db.State()), old(db.path), old(db.loaded), db.path, disk),
                                   items, Workers.LatinizeStep(apiUrl, exchange), cancelAt),
                       db.State(), db.path, disk, w, changed, progress, completed, disk')
  {
    if |items| == 0 {
      return false, [], [], false, disk;
    }
    db.EnsureLoaded(configured, fallback, disk);
    started := true;
    changed, progress, completed, disk' := Workers.LatinizeWorker(db, items, apiUrl, exchange, cancelAt, disk, w);
  }

  /** `ClearLatinizeAll`. */
  method ClearLatinizeAll(db: Store.LatinDb, items: seq<Workers.Item>, configured: Bytes, fallback: Bytes,
                          cancelAt: Option<nat>, disk: map<Bytes, Bytes>, w: Store.WriteOutcome)
    returns (started: bool, changed: seq<Workers.Handle>, progress: seq<nat>, completed: bool, disk': map<Bytes, Bytes>)
    modifies db
    ensures started <==> |items| > 0
    ensures !started ==>
      && db.State() == old(db.State()) && db.path == old(db.path) && db.loaded == old(db.loaded)
      && changed == [] && !completed && disk' == disk
    ensures started ==>
      && db.path == Store.DbPath(configured, fallback) && db.loaded
      && Workers.Ended(Workers.Run(Store.Ensured(old(db.State()), old(db.path), old(db.loaded), db.path, disk),
                                   items, Workers.ClearAllStep, cancelAt),
                       db.State(), db.path, disk, w, changed, progress, completed, disk')
  {
    if |items| == 0 {
      return false, [], [], false, disk;
    }
    db.EnsureLoaded(configured, fallback, disk);
    started := true;
    changed, progress, completed, disk' := Workers.ClearAllWorker(db, items, cancelAt, disk, w);
  }

  /** `ClearLatinizeTitleOnly`. */
  method ClearLatinizeTitleOnly(db: Store.LatinDb, items: seq<Workers.Item>, configured: Bytes, fallback: Bytes,
                                cancelAt: Option<nat>, disk: map<Bytes, Bytes>, w: Store.WriteOutcome)
    returns (started: bool, changed: seq<Workers.Handle>, progress: seq<nat>, completed: bool, disk': map<Bytes, Bytes>)
    modifies db
    ensures started <==> |items| > 0
    ensures !started ==>
      && db.State() == old(db.State()) && db.path == old(db.path) && db.loaded == old(db.loaded)
      && changed == [] && !completed && disk' == disk
    ensures started ==>
      && db.path == Store.DbPath(configured, fallback) && db.loaded
      && Workers.Ended(Workers.Run(Store.Ensured(old(db.State()), old(db.path), old(db.loaded), db.path, disk),
                                   items, Workers.ClearTitleStep, cancelAt),
                       db.State(), db.path, disk, w, changed, progress, completed, disk')
  {
    if |items| == 0 {
      return false, [], [], false, disk;
    }
    db.EnsureLoaded(configured, fallback, disk);
    started := true;
    changed, progress, completed, disk' := Workers.ClearTitleWorker(db, items, cancelAt, disk, w);
  }

  /** `ClearLatinizeAlbumOnly`. */
  method ClearLatinizeAlbumOnly(db: Store.LatinDb, items: seq<Workers.Item>, configured: Bytes, fallback: Bytes,
                                cancelAt: Option<nat>, disk: map<Bytes, Bytes>, w: Store.WriteOutcome)
    returns (started: bool, changed: seq<Workers.Handle>, progress: seq<nat>, completed: bool, disk': map<Bytes, Bytes>)
    modifies db
    ensures started <==> |items| > 0
    ensures !started ==>
      && db.State() == old(db.State()) && db.path == old(db.path) && db.loaded == old(db.loaded)
      && changed == [] && !completed && disk' == disk
    ensures started ==>
      && db.path == Store.DbPath(configured, fallback) && db.loaded
      && Workers.Ended(Workers.Run(Store.Ensured(old(db.State()), old(db.path), old(db.loaded), db.path, disk),
                                   items, Workers.ClearAlbumStep, cancelAt),
                       db.State(), db.path, disk, w, changed, progress, completed, disk')
  {
    if |items| == 0 {
      return false, [], [], false, disk;
    }
    db.EnsureLoaded(configured, fallback, disk);
    started := true;
    changed, progress, completed, disk' := Workers.ClearAlbumWorker(db, items, cancelAt, disk, w);
  }
}
