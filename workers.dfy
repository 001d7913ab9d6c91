/** The four batch workers of the context menu (latinize.cpp `RunLatinize`,
    `ClearLatinizeAll`, `ClearLatinizeTitleOnly`, `ClearLatinizeAlbumOnly`):
    each visits the selected items in order, checks for cancellation, updates
    the store item by item, collects the items it changed, and saves the store
    once at the end. */
module Workers {
  import opened Bytes
  import opened Records
  import Store
  import Request

  /** A selected track (`metadb_handle`), told apart by a number. */
  type Handle = nat

  /** What a worker reads from one item's info: the `TITLE` and `ALBUM` tags
      and the two keys hashed from the tags and the location. */
  datatype Tags = Tags(title: Bytes, album: Bytes, trackKey: Key, albumKey: Key)

  /** One selected item; `info` is `None` when `get_info_ref` fails. */
  datatype Item = Item(handle: Handle, info: Option<Tags>)

  /** What one item does to the store: the new store, whether the item goes
      on the `changed` list, and whether its request was cancelled. */
  datatype Step = Step(cache: Store.Cache, changed: bool, aborted: bool)

  /** A worker's run: the store, the `changed` list, the `set_progress`
      positions reported, and whether the loop got to its end (and so to the
      closing `save_if_dirty`) rather than stopping on cancellation. */
  datatype Batch = Batch(cache: Store.Cache, changed: seq<Handle>, progress: seq<nat>, completed: bool)

  // ---------------------------------------------------------------------------
  // The loop every worker runs

  /** `abort.check()` throws at item `i` once the user has cancelled, which
      happened before item `cancelAt` (`None`: nobody cancels). */
  predicate Cancelled(cancelAt: Option<nat>, i: nat) {
    cancelAt.Some? && cancelAt.value <= i
  }

  /** The loop from item `i` on: check for cancellation, report progress, skip
      an item without info, run `step` on the others; a cancelled request
      (`exception_aborted`) ends the loop like a failed check. */
  function RunFrom(b: Batch, items: seq<Item>, step: (Store.Cache, Tags, nat) -> Step, cancelAt: Option<nat>, i: nat): Batch
    requires i <= |items|
    decreases |items| - i
  {
    if i == |items| then b
    else if Cancelled(cancelAt, i) then b.(completed := false)
    else
      var b' := b.(progress := b.progress + [i]);
      match items[i].info
      case None => RunFrom(b', items, step, cancelAt, i + 1)
      case Some(t) =>
        var s := step(b.cache, t, i);
        if s.aborted then b'.(cache := s.cache, completed := false)
        else RunFrom(b'.(cache := s.cache, changed := if s.changed then b.changed + [items[i].handle] else b.changed),
                     items, step, cancelAt, i + 1)
  }

  /** A whole run from the store `c`, after `set_progress(0, count)`. */
  function Run(c: Store.Cache, items: seq<Item>, step: (Store.Cache, Tags, nat) -> Step, cancelAt: Option<nat>): Batch {
    RunFrom(Batch(c, [], [0], true), items, step, cancelAt, 0)
  }

  /** One turn of the loop: the run from item `i` is the run from `i + 1`
      after that item, or ends there when its request was cancelled. */
  lemma RunFromNext(b: Batch, items: seq<Item>, step: (Store.Cache, Tags, nat) -> Step, cancelAt: Option<nat>, i: nat)
    requires i < |items| && !Cancelled(cancelAt, i)
    ensures items[i].info.None? ==>
      RunFrom(b, items, step, cancelAt, i) == RunFrom(b.(progress := b.progress + [i]), items, step, cancelAt, i + 1)
    ensures items[i].info.Some? ==>
      var s := step(b.cache, items[i].info.value, i);
      RunFrom(b, items, step, cancelAt, i)
        == if s.aborted then Batch(s.cache, b.changed, b.progress + [i], false)
           else RunFrom(Batch(s.cache, if s.changed then b.changed + [items[i].handle] else b.changed, b.progress + [i], b.completed),
                        items, step, cancelAt, i + 1)
  {
  }

  /** No item of `step` is a cancelled request. */
  ghost predicate NeverAborts(step: (Store.Cache, Tags, nat) -> Step) {
    forall c, t, i :: !step(c, t, i).aborted
  }

  /** From item `i` on, the loop reports the positions it starts one by one,
      completes only when no check from `i` on fails, and (when no request is
      cancelled) stops exactly at the first failing check. */
  lemma {:induction false} RunFromProgress(b: Batch, items: seq<Item>, step: (Store.Cache, Tags, nat) -> Step,
                                           cancelAt: Option<nat>, i: nat)
    requires i <= |items| && b.completed
    ensures var r := RunFrom(b, items, step, cancelAt, i);
      && |b.progress| <= |r.progress| <= |b.progress| + (|items| - i)
      && r.progress[..|b.progress|] == b.progress
      && (forall j :: |b.progress| <= j < |r.progress| ==> r.progress[j] == i + (j - |b.progress|))
      && (r.completed ==> |r.progress| == |b.progress| + (|items| - i) && forall j :: i <= j < |items| ==> !Cancelled(cancelAt, j))
      && (NeverAborts(step) && (forall j :: i <= j < |items| ==> !Cancelled(cancelAt, j)) ==> r.completed)
      && (NeverAborts(step) && cancelAt.Some? && i <= cancelAt.value < |items| ==>
            !r.completed && |r.progress| == |b.progress| + (cancelAt.value - i))
    decreases |items| - i
  {
    if i < |items| && !Cancelled(cancelAt, i) {
      var b' := b.(progress := b.progress + [i]);
      var next: Batch;
      match items[i].info {
        case None =>
          next := b';
        case Some(t) =>
          var s := step(b.cache, t, i);
          next := b'.(cache := s.cache, changed := if s.changed then b.changed + [items[i].handle] else b.changed);
      }
      if items[i].info.None? || !step(b.cache, items[i].info.value, i).aborted {
        assert RunFrom(b, items, step, cancelAt, i) == RunFrom(next, items, step, cancelAt, i + 1);
        RunFromProgress(next, items, step, cancelAt, i + 1);
        var r := RunFrom(next, items, step, cancelAt, i + 1);
        assert r.progress[..|b.progress|] == r.progress[..|next.progress|][..|b.progress|];
      }
    }
  }

  /** From item `i` on, the loop only appends to `changed`, at most one handle
      per item, each the handle of an item from `i` on that has info. */
  lemma {:induction false} RunFromChanged(b: Batch, items: seq<Item>, step: (Store.Cache, Tags, nat) -> Step,
                                          cancelAt: Option<nat>, i: nat)
    requires i <= |items|
    ensures var r := RunFrom(b, items, step, cancelAt, i);
      && b.changed <= r.changed
      && |r.changed| <= |b.changed| + (|items| - i)
      && forall k :: |b.changed| <= k < |r.changed| ==>
           exists j :: i <= j < |items| && items[j].info.Some? && items[j].handle == r.changed[k]
    decreases |items| - i
  {
    if i < |items| && !Cancelled(cancelAt, i) {
      var b' := b.(progress := b.progress + [i]);
      if items[i].info.None? {
        RunFromChanged(b', items, step, cancelAt, i + 1);
      } else {
        var s := step(b.cache, items[i].info.value, i);
        if !s.aborted {
          var next := b'.(cache := s.cache, changed := if s.changed then b.changed + [items[i].handle] else b.changed);
          RunFromChanged(next, items, step, cancelAt, i + 1);
          var r := RunFrom(next, items, step, cancelAt, i + 1);
          forall k | |b.changed| <= k < |r.changed|
            ensures exists j :: i <= j < |items| && items[j].info.Some? && items[j].handle == r.changed[k]
          {
            if k < |next.changed| {
              assert r.changed[k] == next.changed[k] == items[i].handle;
            }
          }
        }
      }
    }
  }

  /** A worker reports `set_progress(0, count)` and then each item it starts,
      in order; `changed` holds at most one handle per item, each that of an
      item with info; a run completes only if no check fails, and when no
      request is cancelled it completes exactly when nobody cancelled before
      the last item, and otherwise starts exactly the items before the
      cancellation. */
  lemma RunShape(c: Store.Cache, items: seq<Item>, step: (Store.Cache, Tags, nat) -> Step, cancelAt: Option<nat>)
    ensures var r := Run(c, items, step, cancelAt);
      && 1 <= |r.progress| <= |items| + 1 && r.progress[0] == 0
      && (forall j :: 1 <= j < |r.progress| ==> r.progress[j] == j - 1)
      && |r.changed| <= |items|
      && (forall k :: 0 <= k < |r.changed| ==> exists j :: 0 <= j < |items| && items[j].info.Some? && items[j].handle == r.changed[k])
      && (r.completed ==> |r.progress| == |items| + 1 && (|items| == 0 || cancelAt.None? || cancelAt.value >= |items|))
      && (NeverAborts(step) ==> (r.completed <==> |items| == 0 || cancelAt.None? || cancelAt.value >= |items|))
      && (NeverAborts(step) && cancelAt.Some? && cancelAt.value < |items| ==> |r.progress| == cancelAt.value + 1)
  {
    var b := Batch(c, [], [0], true);
    RunFromProgress(b, items, step, cancelAt, 0);
    RunFromChanged(b, items, step, cancelAt, 0);
    var r := Run(c, items, step, cancelAt);
    assert r.progress[0] == r.progress[..1][0];
    if |items| > 0 && cancelAt.Some? && cancelAt.value < |items| {
      assert Cancelled(cancelAt, cancelAt.value);
    }
  }

  /** How a worker ends: its `changed` list and progress are the run's, the
      store holds the run's maps, and only a completed run saves (and then the
      store is clean); a cancelled one leaves the dirty flag and the file as
      they were. */
  ghost predicate Ended(b: Batch, after: Store.Cache, path: Bytes, disk: map<Bytes, Bytes>, w: Store.WriteOutcome,
                        changed: seq<Handle>, progress: seq<nat>, completed: bool, disk': map<Bytes, Bytes>) {
    && changed == b.changed && progress == b.progress && completed == b.completed
    && after.tracks == b.cache.tracks && after.albums == b.cache.albums
    && (completed ==> !after.dirty && if b.cache.dirty then Store.Saved(disk, path, b.cache, w, disk') else disk' == disk)
    && (!completed ==> after.dirty == b.cache.dirty && disk' == disk)
  }

  // ---------------------------------------------------------------------------
  // One item of each worker

  /** The shared album value of the item's album, empty when there is none. */
  function CachedAlbum(c: Store.Cache, t: Tags): Bytes {
    if t.albumKey in c.albums then c.albums[t.albumKey] else []
  }

  /** `haveAlbum`: the album cache holds a non-empty value for the item. */
  predicate HaveAlbum(c: Store.Cache, t: Tags) {
    t.albumKey in c.albums && |c.albums[t.albumKey]| > 0
  }

  /** A cache hit: the track has a title and an album, its own or the shared one. */
  predicate Hit(c: Store.Cache, t: Tags) {
    t.trackKey in c.tracks && |c.tracks[t.trackKey].title| > 0
    && (|c.tracks[t.trackKey].album| > 0 || HaveAlbum(c, t))
  }

  /** The body of `RunLatinize`'s loop, `reply` being what the request gives
      when the item is a miss. */
  function LatinizeItem(c: Store.Cache, t: Tags, reply: Request.Outcome): Step {
    if Hit(c, t) then
      var rec := c.tracks[t.trackKey];
      Step(if !HaveAlbum(c, t) && |rec.album| > 0 then Store.PutAlbum(c, t.albumKey, rec.album) else c, false, false)
    else match reply
      case Aborted => Step(c, false, true)
      case Failed(_) => Step(c, false, false)
      case Latinized(fetched) =>
        if |fetched.title| == 0 && |fetched.album| == 0 then Step(c, false, false)
        else
          var stored := if HaveAlbum(c, t) then fetched.(album := CachedAlbum(c, t)) else fetched;
          var c1 := Store.PutTrack(c, t.trackKey, stored);
          Step(if !HaveAlbum(c, t) && |stored.album| > 0 then Store.PutAlbum(c1, t.albumKey, stored.album) else c1, true, false)
  }

  /** The body of `ClearLatinizeAll`'s loop. */
  function ClearAllItem(c: Store.Cache, t: Tags): Step {
    var d1 := Store.Delete(c, true, t.trackKey);
    var d2 := Store.Delete(d1.cache, false, t.albumKey);
    Step(d2.cache, d1.changed || d2.changed, false)
  }

  /** The body of `ClearLatinizeTitleOnly`'s loop. */
  function ClearTitleItem(c: Store.Cache, t: Tags): Step {
    if t.trackKey !in c.tracks || |c.tracks[t.trackKey].title| == 0 then Step(c, false, false)
    else Step(Store.PutTrack(c, t.trackKey, c.tracks[t.trackKey].(title := [])), true, false)
  }

  /** The body of `ClearLatinizeAlbumOnly`'s loop. */
  function ClearAlbumItem(c: Store.Cache, t: Tags): Step {
    var blank := t.trackKey in c.tracks && |c.tracks[t.trackKey].album| > 0;
    var c1 := if blank then Store.PutTrack(c, t.trackKey, c.tracks[t.trackKey].(album := [])) else c;
    var d := Store.Delete(c1, false, t.albumKey);
    Step(d.cache, blank || d.changed, false)
  }

  /** A hit sends no request (its result is the same whatever the reply),
      changes no track, lists nothing, and copies the track's album into the
      album cache only when that holds no non-empty value. */
  lemma LatinizeHit(c: Store.Cache, t: Tags, reply: Request.Outcome)
    requires Hit(c, t)
    ensures forall other :: LatinizeItem(c, t, other) == LatinizeItem(c, t, reply)
    ensures var s := LatinizeItem(c, t, reply);
      && !s.changed && !s.aborted && s.cache.tracks == c.tracks
      && s.cache.albums == if HaveAlbum(c, t) then c.albums else c.albums[t.albumKey := c.tracks[t.trackKey].album]
  {
    if !HaveAlbum(c, t) {
      Store.PutAlbumFrame(c, t.albumKey, c.tracks[t.trackKey].album);
    }
  }

  /** On a miss, a cancelled request stops the worker, and a failed or empty
      reply changes nothing. A reply with a field is stored for the track and
      listed; a non-empty shared album value wins over the fetched album and
      is kept, and the album cache takes the fetched album only when it held
      no non-empty value. */
  lemma LatinizeMiss(c: Store.Cache, t: Tags, reply: Request.Outcome)
    requires !Hit(c, t)
    ensures var s := LatinizeItem(c, t, reply);
      && (s.aborted <==> reply.Aborted?)
      && (!(reply.Latinized? && (reply.record.title != [] || reply.record.album != [])) ==> s.cache == c && !s.changed)
      && (reply.Latinized? && (reply.record.title != [] || reply.record.album != []) ==>
            var fetched := reply.record;
            && s.changed
            && (HaveAlbum(c, t) ==>
                  && s.cache.tracks == c.tracks[t.trackKey := LatinRecord(fetched.title, c.albums[t.albumKey])]
                  && s.cache.albums == c.albums)
            && (!HaveAlbum(c, t) ==>
                  && s.cache.tracks == c.tracks[t.trackKey := fetched]
                  && s.cache.albums == if fetched.album == [] then c.albums else c.albums[t.albumKey := fetched.album]))
  {
    if reply.Latinized? && (reply.record.title != [] || reply.record.album != []) {
      var fetched := reply.record;
      var stored := if HaveAlbum(c, t) then fetched.(album := CachedAlbum(c, t)) else fetched;
      Store.PutTrackFrame(c, t.trackKey, stored);
      if !HaveAlbum(c, t) && |stored.album| > 0 {
        Store.PutAlbumFrame(Store.PutTrack(c, t.trackKey, stored), t.albumKey, stored.album);
      }
    }
  }

  /** Clearing all of an item deletes its track record and its album value,
      and lists it exactly when one of the two was there, that is exactly
      when the store changed. */
  lemma ClearAllItemSpec(c: Store.Cache, t: Tags)
    ensures var s := ClearAllItem(c, t);
      && !s.aborted
      && s.cache.tracks == c.tracks - {t.trackKey} && s.cache.albums == c.albums - {t.albumKey}
      && (s.changed <==> t.trackKey in c.tracks || t.albumKey in c.albums)
      && (s.changed <==> s.cache != c)
      && (s.cache.dirty <==> c.dirty || s.changed)
  {
    var d1 := Store.Delete(c, true, t.trackKey);
    Store.DeleteFrame(c, true, t.trackKey);
    Store.DeleteFrame(d1.cache, false, t.albumKey);
    if t.trackKey in c.tracks {
      assert t.trackKey !in ClearAllItem(c, t).cache.tracks;
    } else if t.albumKey in c.albums {
      assert t.albumKey !in ClearAllItem(c, t).cache.albums;
    }
  }

  /** Clearing the title blanks the track's title and keeps its album; the
      item is listed exactly when it had a non-empty title, that is exactly
      when the store changed. The album cache is not touched. */
  lemma ClearTitleItemSpec(c: Store.Cache, t: Tags)
    ensures var s := ClearTitleItem(c, t);
      && !s.aborted && s.cache.albums == c.albums
      && (s.changed <==> t.trackKey in c.tracks && c.tracks[t.trackKey].title != [])
      && (s.changed <==> s.cache != c)
      && (s.changed ==> s.cache.tracks == c.tracks[t.trackKey := LatinRecord([], c.tracks[t.trackKey].album)] && s.cache.dirty)
  {
    if t.trackKey in c.tracks && c.tracks[t.trackKey].title != [] {
      Store.PutTrackFrame(c, t.trackKey, c.tracks[t.trackKey].(title := []));
    }
  }

  /** Clearing the album blanks the track record's album (keeping its title)
      and deletes the shared album value; the item is listed exactly when one
      of the two had something, that is exactly when the store changed. */
  lemma ClearAlbumItemSpec(c: Store.Cache, t: Tags)
    ensures var s := ClearAlbumItem(c, t);
      && !s.aborted && s.cache.albums == c.albums - {t.albumKey}
      && s.cache.tracks == (if t.trackKey in c.tracks && c.tracks[t.trackKey].album != []
                            then c.tracks[t.trackKey := LatinRecord(c.tracks[t.trackKey].title, [])] else c.tracks)
      && (s.changed <==> (t.trackKey in c.tracks && c.tracks[t.trackKey].album != []) || t.albumKey in c.albums)
      && (s.changed <==> s.cache != c)
      && (s.cache.dirty <==> c.dirty || s.changed)
  {
    var blank := t.trackKey in c.tracks && |c.tracks[t.trackKey].album| > 0;
    var c1 := if blank then Store.PutTrack(c, t.trackKey, c.tracks[t.trackKey].(album := [])) else c;
    if blank {
      Store.PutTrackFrame(c, t.trackKey, c.tracks[t.trackKey].(album := []));
      assert c1.tracks[t.trackKey].album == [];
    }
    Store.DeleteFrame(c1, false, t.albumKey);
    if !blank && t.albumKey in c.albums {
      assert t.albumKey !in ClearAlbumItem(c, t).cache.albums;
    }
  }

  // ---------------------------------------------------------------------------
  // The workers

  /** `RunLatinize`'s loop body on one item for `step`. */
  function LatinizeStep(apiUrl: Bytes, exchange: (nat, Bytes, Bytes) -> Request.Transport): (Store.Cache, Tags, nat) -> Step {
    (c: Store.Cache, t: Tags, i: nat) => LatinizeItem(c, t, Request.RequestOutcome(apiUrl, exchange(i, t.title, t.album)))
  }

  const ClearAllStep: (Store.Cache, Tags, nat) -> Step := (c: Store.Cache, t: Tags, i: nat) => ClearAllItem(c, t)
  const ClearTitleStep: (Store.Cache, Tags, nat) -> Step := (c: Store.Cache, t: Tags, i: nat) => ClearTitleItem(c, t)
  const ClearAlbumStep: (Store.Cache, Tags, nat) -> Step := (c: Store.Cache, t: Tags, i: nat) => ClearAlbumItem(c, t)

  /** The clear workers send no request, so only a failed check stops them. */
  lemma ClearStepsNeverAbort()
    ensures NeverAborts(ClearAllStep) && NeverAborts(ClearTitleStep) && NeverAborts(ClearAlbumStep)
  {
  }

  /** One item of `RunLatinize`: look up the shared album and the track, and
      on a miss ask the service (`exchange` is that item's HTTP exchange). */
  method LatinizeOne(db: Store.LatinDb, t: Tags, apiUrl: Bytes, exchange: Request.Transport) returns (changed: bool, aborted: bool)
    modifies db`tracks, db`albums, db`dirty
    ensures Step(db.State(), changed, aborted) == LatinizeItem(old(db.State()), t, Request.RequestOutcome(apiUrl, exchange))
  {
    var cachedAlbum: Bytes := [];
    var gotAlbum := db.GetAlbum(t.albumKey);
    if gotAlbum.Some? {
      cachedAlbum := gotAlbum.value;
    }
    var haveAlbum := gotAlbum.Some? && |cachedAlbum| > 0;
    var rec := LatinRecord([], []);
    var got := db.GetTrack(t.trackKey);
    if got.Some? {
      rec := got.value;
    }
    if got.Some? && |rec.title| > 0 && (|rec.album| > 0 || haveAlbum) {
      if !haveAlbum && |rec.album| > 0 {
        db.SetAlbum(t.albumKey, rec.album);
      }
      return false, false;
    }
    var reply := Request.RequestOutcome(apiUrl, exchange);
    if reply.Aborted? {
      return false, true;
    }
    if reply.Failed? {
      return false, false;
    }
    var fetched := reply.record;
    if |fetched.title| == 0 && |fetched.album| == 0 {
      return false, false;
    }
    if haveAlbum {
      fetched := fetched.(album := cachedAlbum);
    }
    db.SetTrack(t.trackKey, fetched);
    if !haveAlbum && |fetched.album| > 0 {
      db.SetAlbum(t.albumKey, fetched.album);
    }
    return true, false;
  }

  /** The worker of `RunLatinize`: the loop over the items, then
      `save_if_dirty` unless the loop was cancelled. */
  method LatinizeWorker(db: Store.LatinDb, items: seq<Item>, apiUrl: Bytes, exchange: (nat, Bytes, Bytes) -> Request.Transport,
                        cancelAt: Option<nat>, disk: map<Bytes, Bytes>, w: Store.WriteOutcome)
    returns (changed: seq<Handle>, progress: seq<nat>, completed: bool, disk': map<Bytes, Bytes>)
    modifies db`tracks, db`albums, db`dirty
    ensures Ended(Run(old(db.State()), items, LatinizeStep(apiUrl, exchange), cancelAt), db.State(), db.path,
                  disk, w, changed, progress, completed, disk')
  {
    ghost var step := LatinizeStep(apiUrl, exchange);
    changed, progress := [], [0];
    var i := 0;
    while i < |items|
      invariant i <= |items|
      invariant RunFrom(Batch(db.State(), changed, progress, true), items, step, cancelAt, i)
             == Run(old(db.State()), items, step, cancelAt)
    {
      if Cancelled(cancelAt, i) {
        return changed, progress, false, disk;
      }
      ghost var before := Batch(db.State(), changed, progress, true);
      RunFromNext(before, items, step, cancelAt, i);
      progress := progress + [i];
      match items[i].info {
        case None =>
        case Some(t) =>
          var itemChanged, aborted := LatinizeOne(db, t, apiUrl, exchange(i, t.title, t.album));
          if aborted {
            return changed, progress, false, disk;
          }
          if itemChanged {
            changed := changed + [items[i].handle];
          }
      }
      i := i + 1;
    }
    disk' := db.SaveIfDirty(disk, w);
    completed := true;
  }

  /** One item of `ClearLatinizeAll`. */
  method ClearAllOne(db: Store.LatinDb, t: Tags) returns (changed: bool)
    modifies db`tracks, db`albums, db`dirty
    ensures Step(db.State(), changed, false) == ClearAllItem(old(db.State()), t)
  {
    changed := false;
    var removed := db.DeleteEntry(true, t.trackKey);
    if removed {
      changed := true;
    }
    removed := db.DeleteEntry(false, t.albumKey);
    if removed {
      changed := true;
    }
  }

  /** The worker of `ClearLatinizeAll`. */
  method ClearAllWorker(db: Store.LatinDb, items: seq<Item>, cancelAt: Option<nat>, disk: map<Bytes, Bytes>, w: Store.WriteOutcome)
    returns (changed: seq<Handle>, progress: seq<nat>, completed: bool, disk': map<Bytes, Bytes>)
    modifies db`tracks, db`albums, db`dirty
    ensures Ended(Run(old(db.State()), items, ClearAllStep, cancelAt), db.State(), db.path,
                  disk, w, changed, progress, completed, disk')
  {
    changed, progress := [], [0];
    var i := 0;
    while i < |items|
      invariant i <= |items|
      invariant RunFrom(Batch(db.State(), changed, progress, true), items, ClearAllStep, cancelAt, i)
             == Run(old(db.State()), items, ClearAllStep, cancelAt)
    {
      if Cancelled(cancelAt, i) {
        return changed, progress, false, disk;
      }
      ghost var before := Batch(db.State(), changed, progress, true);
      RunFromNext(before, items, ClearAllStep, cancelAt, i);
      progress := progress + [i];
      match items[i].info {
        case None =>
        case Some(t) =>
          var itemChanged := ClearAllOne(db, t);
          if itemChanged {
            changed := changed + [items[i].handle];
          }
      }
      i := i + 1;
    }
    disk' := db.SaveIfDirty(disk, w);
    completed := true;
  }

  /** One item of `ClearLatinizeTitleOnly`. */
  method ClearTitleOne(db: Store.LatinDb, t: Tags) returns (changed: bool)
    modifies db`tracks, db`albums, db`dirty
    ensures Step(db.State(), changed, false) == ClearTitleItem(old(db.State()), t)
  {
    var got := db.GetTrack(t.trackKey);
    if got.None? {
      return false;
    }
    var rec := got.value;
    if |rec.title| == 0 {
      return false;
    }
    rec := rec.(title := []);
    db.SetTrack(t.trackKey, rec);
    return true;
  }

  /** The worker of `ClearLatinizeTitleOnly`. */
  method ClearTitleWorker(db: Store.LatinDb, items: seq<Item>, cancelAt: Option<nat>, disk: map<Bytes, Bytes>, w: Store.WriteOutcome)
    returns (changed: seq<Handle>, progress: seq<nat>, completed: bool, disk': map<Bytes, Bytes>)
    modifies db`tracks, db`albums, db`dirty
    ensures Ended(Run(old(db.State()), items, ClearTitleStep, cancelAt), db.State(), db.path,
                  disk, w, changed, progress, completed, disk')
  {
    changed, progress := [], [0];
    var i := 0;
    while i < |items|
      invariant i <= |items|
      invariant RunFrom(Batch(db.State(), changed, progress, true), items, ClearTitleStep, cancelAt, i)
             == Run(old(db.State()), items, ClearTitleStep, cancelAt)
    {
      if Cancelled(cancelAt, i) {
        return changed, progress, false, disk;
      }
      ghost var before := Batch(db.State(), changed, progress, true);
      RunFromNext(before, items, ClearTitleStep, cancelAt, i);
      progress := progress + [i];
      match items[i].info {
        case None =>
        case Some(t) =>
          var itemChanged := ClearTitleOne(db, t);
          if itemChanged {
            changed := changed + [items[i].handle];
          }
      }
      i := i + 1;
    }
    disk' := db.SaveIfDirty(disk, w);
    completed := true;
  }

  /** One item of `ClearLatinizeAlbumOnly`. */
  method ClearAlbumOne(db: Store.LatinDb, t: Tags) returns (changed: bool)
    modifies db`tracks, db`albums, db`dirty
    ensures Step(db.State(), changed, false) == ClearAlbumItem(old(db.State()), t)
  {
    changed := false;
    var got := db.GetTrack(t.trackKey);
    if got.Some? {
      var rec := got.value;
      if |rec.album| > 0 {
        rec := rec.(album := []);
        db.SetTrack(t.trackKey, rec);
        changed := true;
      }
    }
    var removed := db.DeleteEntry(false, t.albumKey);
    if removed {
      changed := true;
    }
  }

  /** The worker of `ClearLatinizeAlbumOnly`. */
  method ClearAlbumWorker(db: Store.LatinDb, items: seq<Item>, cancelAt: Option<nat>, disk: map<Bytes, Bytes>, w: Store.WriteOutcome)
    returns (changed: seq<Handle>, progress: seq<nat>, completed: bool, disk': map<Bytes, Bytes>)
    modifies db`tracks, db`albums, db`dirty
    ensures Ended(Run(old(db.State()), items, ClearAlbumStep, cancelAt), db.State(), db.path,
                  disk, w, changed, progress, completed, disk')
  {
    changed, progress := [], [0];
    var i := 0;
    while i < |items|
      invariant i <= |items|
      invariant RunFrom(Batch(db.State(), changed, progress, true), items, ClearAlbumStep, cancelAt, i)
             == Run(old(db.State()), items, ClearAlbumStep, cancelAt)
    {
      if Cancelled(cancelAt, i) {
        return changed, progress, false, disk;
      }
      ghost var before := Batch(db.State(), changed, progress, true);
      RunFromNext(before, items, ClearAlbumStep, cancelAt, i);
      progress := progress + [i];
      match items[i].info {
        case None =>
        case Some(t) =>
          var itemChanged := ClearAlbumOne(db, t);
          if itemChanged {
            changed := changed + [items[i].handle];
          }
      }
      i := i + 1;
    }
    disk' := db.SaveIfDirty(disk, w);
    completed := true;
  }
}
