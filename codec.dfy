/** The cache file of `latin_db` (`load_locked` / `save_locked`): a header of
    four little-endian u32 values (the magic "FBLT", the version 1, the track
    count and the album count), then per track a u64 key and two strings, then
    per album a u64 key and one string. A string is its u32 little-endian length
    followed by its bytes. */
module Codec {
  import opened Bytes
  import opened Records

  /** "FBLT" read as a little-endian u32. */
  const Magic: nat := 0x544C4246
  const Version: nat := 1
  const U32Limit: nat := 0x1_0000_0000

  /** Where the track entries start: after the four header words. */
  const HeaderSize: nat := 16

  function Pow256(n: nat): (r: nat)
    ensures r > 0
  {
    if n == 0 then 1 else 256 * Pow256(n - 1)
  }

  lemma PowValues()
    ensures Pow256(4) == U32Limit && Pow256(8) == 0x1_0000_0000_0000_0000
  {
  }

  /** `write_lendian_t`: the `n` low bytes of `v`, least significant first. A
      value too wide for `n` bytes loses its high bytes, as the `(t_uint32)`
      casts of the counts and lengths do. */
  function Le(v: nat, n: nat): (b: Bytes)
    ensures |b| == n
  {
    if n == 0 then [] else [(v % 256) as char] + Le(v / 256, n - 1)
  }

  /** `read_lendian_t`: the number the bytes stand for, least significant first. */
  function LeValue(b: Bytes): (v: nat)
    ensures v < Pow256(|b|)
  {
    if |b| == 0 then 0
    else
      var rest := LeValue(b[1..]);
      assert b[0] as nat + 256 * rest <= 255 + 256 * (Pow256(|b| - 1) - 1);
      b[0] as nat + 256 * rest
  }

  /** Reading back what was written gives the number, when it fits in `n` bytes. */
  lemma {:induction false} LeRoundTrip(v: nat, n: nat)
    requires v < Pow256(n)
    ensures LeValue(Le(v, n)) == v
  {
    if n > 0 {
      var b := Le(v, n);
      assert b[1..] == Le(v / 256, n - 1);
      LeRoundTrip(v / 256, n - 1);
    }
  }

  /** Writing back the number that `n` bytes stand for gives those bytes. */
  lemma {:induction false} LeOfValue(b: Bytes)
    ensures Le(LeValue(b), |b|) == b
    decreases |b|
  {
    if |b| > 0 {
      LeOfValue(b[1..]);
      var v := LeValue(b);
      assert v % 256 == b[0] as nat && v / 256 == LeValue(b[1..]);
      assert [(v % 256) as char] == [b[0]];
      assert b == [b[0]] + b[1..];
    }
  }

  /** The result of one read: the value and the bytes after it. */
  datatype Read<T> = Read(value: T, rest: Bytes)

  /** Both maps a load fills; a load that fails leaves both empty. */
  datatype Loaded = Loaded(tracks: map<Key, LatinRecord>, albums: map<Key, Bytes>)

  const Empty: Loaded := Loaded(map[], map[])

  /** `unordered_map::emplace`: a key already present keeps its value. */
  function Emplace<V>(m: map<Key, V>, k: Key, v: V): (r: map<Key, V>)
    ensures k in m ==> r == m
    ensures k !in m ==> r == m[k := v]
  {
    if k in m then m else m[k := v]
  }

  /** An `n`-byte little-endian number; a short file is a failed read. */
  function ReadLe(s: Bytes, n: nat): (r: Option<Read<nat>>)
    ensures r.Some? <==> n <= |s|
    ensures r.Some? ==> r.value.rest == s[n..] && r.value.value == LeValue(s[..n]) && r.value.value < Pow256(n)
  {
    if n <= |s| then Some(Read(LeValue(s[..n]), s[n..])) else None
  }

  /** A `metadb_index_hash` key: a u64. */
  function ReadKey(s: Bytes): (r: Option<Read<Key>>)
    ensures r.Some? <==> 8 <= |s|
    ensures r.Some? ==> r.value.rest == s[8..] && r.value.value == LeValue(s[..8])
  {
    PowValues();
    if 8 <= |s| then Some(Read(LeValue(s[..8]), s[8..])) else None
  }

  /** `read_string`: a u32 length, then that many bytes. */
  function ReadString(s: Bytes): (r: Option<Read<Bytes>>)
    ensures r.Some? <==> 4 <= |s| && LeValue(s[..4]) <= |s| - 4
    ensures r.Some? ==>
      && |r.value.value| == LeValue(s[..4])
      && r.value.value == s[4..4 + |r.value.value|] && r.value.rest == s[4 + |r.value.value|..]
  {
    match ReadLe(s, 4)
    case None => None
    case Some(len) =>
      if len.value <= |len.rest| then Some(Read(len.rest[..len.value], len.rest[len.value..])) else None
  }

  /** One entry as read: its key, its value and the bytes after it. */
  datatype Entry<V> = Entry(key: Key, value: V, rest: Bytes)

  /** The body of the track loop: a key, the title, the album. */
  function ReadTrackEntry(s: Bytes): (r: Option<Entry<LatinRecord>>)
    ensures r.Some? ==> |r.value.rest| < |s|
  {
    match ReadKey(s)
    case None => None
    case Some(k) =>
      match ReadString(k.rest)
      case None => None
      case Some(t) =>
        match ReadString(t.rest)
        case None => None
        case Some(a) => Some(Entry(k.value, LatinRecord(t.value, a.value), a.rest))
  }

  /** The body of the album loop: a key, then the album. */
  function ReadAlbumEntry(s: Bytes): (r: Option<Entry<Bytes>>)
    ensures r.Some? ==> |r.value.rest| < |s|
  {
    match ReadKey(s)
    case None => None
    case Some(k) =>
      match ReadString(k.rest)
      case None => None
      case Some(a) => Some(Entry(k.value, a.value, a.rest))
  }

  /** The loop over `n` entries, each read by `entry` and added with `emplace`:
      the track loop with `ReadTrackEntry`, the album loop with `ReadAlbumEntry`. */
  function ReadEntries<V>(s: Bytes, n: nat, acc: map<Key, V>, entry: Bytes -> Option<Entry<V>>): Option<Read<map<Key, V>>>
    decreases n
  {
    if n == 0 then Some(Read(acc, s))
    else match entry(s)
      case None => None
      case Some(e) => ReadEntries(e.rest, n - 1, Emplace(acc, e.key, e.value), entry)
  }

  /** What `load_locked` leaves in the two maps. A short read anywhere throws and
      the handler clears both maps; a wrong magic or version returns with the
      maps still empty (a file too short for the counts fails either way).
      Bytes after the last entry are ignored. */
  function Decode(f: Bytes): (r: Loaded)
    ensures r != Empty ==> HeaderSize <= |f| && LeValue(f[..4]) == Magic && LeValue(f[4..8]) == Version
  {
    if |f| < HeaderSize || LeValue(f[..4]) != Magic || LeValue(f[4..8]) != Version then Empty
    else
      var tracks := ReadEntries(f[HeaderSize..], LeValue(f[8..12]), map[], ReadTrackEntry);
      if tracks.None? then Empty
      else
        var albums := ReadEntries(tracks.value.rest, LeValue(f[12..16]), map[], ReadAlbumEntry);
        if albums.None? then Empty else Loaded(tracks.value.value, albums.value.value)
  }

  /** A record whose two strings have lengths a u32 holds. */
  predicate RecordFits(rec: LatinRecord) {
    |rec.title| < U32Limit && |rec.album| < U32Limit
  }

  /** An album string whose length a u32 holds. */
  predicate AlbumFits(album: Bytes) {
    |album| < U32Limit
  }

  predicate AllFit<V>(m: map<Key, V>, fits: V -> bool) {
    forall k :: k in m ==> fits(m[k])
  }

  /** What the file format can hold: counts and string lengths are u32. */
  predicate Fits(tracks: map<Key, LatinRecord>, albums: map<Key, Bytes>) {
    && |tracks| < U32Limit && |albums| < U32Limit
    && AllFit(tracks, RecordFits) && AllFit(albums, AlbumFits)
  }

  predicate Distinct(order: seq<Key>) {
    forall i, j :: 0 <= i < j < |order| ==> order[i] != order[j]
  }

  /** Every key of `order` is a key of `m`. */
  predicate Within<V>(order: seq<Key>, m: map<Key, V>) {
    forall i :: 0 <= i < |order| ==> order[i] in m
  }

  /** No key of `order` is a key of `m` yet. */
  predicate Fresh<V>(order: seq<Key>, m: map<Key, V>) {
    forall i :: 0 <= i < |order| ==> order[i] !in m
  }

  /** `order` lists every key of the map once: one iteration order of an
      `unordered_map`, which the format does not fix. */
  predicate Enumerates<V>(order: seq<Key>, m: map<Key, V>) {
    Distinct(order) && Within(order, m) && (forall k :: k in m ==> k in order)
  }

  /** `write_string`: the length cast to a u32, then the bytes. */
  function Str(s: Bytes): Bytes {
    Le(|s|, 4) + s
  }

  function TrackEntry(k: Key, rec: LatinRecord): Bytes {
    Le(k, 8) + Str(rec.title) + Str(rec.album)
  }

  function AlbumEntry(k: Key, album: Bytes): Bytes {
    Le(k, 8) + Str(album)
  }

  /** A loop of `save_locked`: the entry `enc` writes for each key, in the order `order`. */
  function EntriesBytes<V>(m: map<Key, V>, order: seq<Key>, enc: (Key, V) -> Bytes): Bytes
    requires Within(order, m)
  {
    if order == [] then [] else enc(order[0], m[order[0]]) + EntriesBytes(m, order[1..], enc)
  }

  function Header(trackCount: nat, albumCount: nat): (h: Bytes)
    ensures |h| == HeaderSize
  {
    Le(Magic, 4) + Le(Version, 4) + Le(trackCount, 4) + Le(albumCount, 4)
  }

  /** The bytes `save_locked` writes when the maps iterate in the given orders. */
  function Encode(tracks: map<Key, LatinRecord>, tOrder: seq<Key>, albums: map<Key, Bytes>, aOrder: seq<Key>): Bytes
    requires Within(tOrder, tracks) && Within(aOrder, albums)
  {
    Header(|tracks|, |albums|) + (EntriesBytes(tracks, tOrder, TrackEntry) + EntriesBytes(albums, aOrder, AlbumEntry))
  }

  // ---------------------------------------------------------------------------
  // Reading back what was written

  lemma {:induction false} DistinctCard(order: seq<Key>)
    requires Distinct(order)
    ensures |set k: Key | k in order| == |order|
  {
    if order != [] {
      var rest := set k: Key | k in order[1..];
      DistinctCard(order[1..]);
      assert (set k: Key | k in order) == {order[0]} + rest;
      assert order[0] !in rest;
    }
  }

  /** An enumeration has as many keys as the map. */
  lemma EnumeratesCard<V>(order: seq<Key>, m: map<Key, V>)
    requires Enumerates(order, m)
    ensures |order| == |m|
  {
    DistinctCard(order);
    assert (set k: Key | k in order) == m.Keys;
  }

  lemma Assoc(a: Bytes, b: Bytes, c: Bytes)
    ensures a + b + c == a + (b + c)
  {
  }

  lemma Halves(a: Bytes, b: Bytes)
    ensures (a + b)[..|a|] == a && (a + b)[|a|..] == b
  {
  }

  lemma PrefixAppend(s: Bytes, u: Bytes, n: nat)
    requires n <= |s|
    ensures (s + u)[..n] == s[..n] && (s + u)[n..] == s[n..] + u
  {
  }

  lemma ReadLeOf(v: nat, n: nat, rest: Bytes)
    requires v < Pow256(n)
    ensures ReadLe(Le(v, n) + rest, n) == Some(Read(v, rest))
  {
    Halves(Le(v, n), rest);
    LeRoundTrip(v, n);
  }

  lemma ReadKeyOf(k: Key, rest: Bytes)
    ensures ReadKey(Le(k, 8) + rest) == Some(Read(k, rest))
  {
    PowValues();
    ReadLeOf(k, 8, rest);
  }

  lemma ReadStringOf(x: Bytes, rest: Bytes)
    requires AlbumFits(x)
    ensures ReadString(Str(x) + rest) == Some(Read(x, rest))
  {
    PowValues();
    var t := x + rest;
    Assoc(Le(|x|, 4), x, rest);
    ReadLeOf(|x|, 4, t);
    Halves(x, rest);
  }

  /** `entry` reads back, as its key and value, what `enc` writes for every value `fits` admits. */
  ghost predicate ReadsBack<V(!new)>(entry: Bytes -> Option<Entry<V>>, enc: (Key, V) -> Bytes, fits: V -> bool) {
    forall k: Key, v: V, rest: Bytes :: fits(v) ==> entry(enc(k, v) + rest) == Some(Entry(k, v, rest))
  }

  /** A written track entry reads back as its key and record. */
  lemma TrackEntryOf(k: Key, rec: LatinRecord, rest: Bytes)
    requires RecordFits(rec)
    ensures ReadTrackEntry(TrackEntry(k, rec) + rest) == Some(Entry(k, rec, rest))
  {
    var a := Str(rec.album) + rest;
    var t := Str(rec.title) + a;
    Assoc(Le(k, 8) + Str(rec.title), Str(rec.album), rest);
    Assoc(Le(k, 8), Str(rec.title), a);
    ReadKeyOf(k, t);
    ReadStringOf(rec.title, a);
    ReadStringOf(rec.album, rest);
  }

  /** A written album entry reads back as its key and album. */
  lemma AlbumEntryOf(k: Key, album: Bytes, rest: Bytes)
    requires AlbumFits(album)
    ensures ReadAlbumEntry(AlbumEntry(k, album) + rest) == Some(Entry(k, album, rest))
  {
    var a := Str(album) + rest;
    Assoc(Le(k, 8), Str(album), rest);
    ReadKeyOf(k, a);
    ReadStringOf(album, rest);
  }

  lemma TracksReadBack()
    ensures ReadsBack(ReadTrackEntry, TrackEntry, RecordFits)
  {
    forall k: Key, rec: LatinRecord, rest: Bytes | RecordFits(rec)
      ensures ReadTrackEntry(TrackEntry(k, rec) + rest) == Some(Entry(k, rec, rest))
    {
      TrackEntryOf(k, rec, rest);
    }
  }

  lemma AlbumsReadBack()
    ensures ReadsBack(ReadAlbumEntry, AlbumEntry, AlbumFits)
  {
    forall k: Key, album: Bytes, rest: Bytes | AlbumFits(album)
      ensures ReadAlbumEntry(AlbumEntry(k, album) + rest) == Some(Entry(k, album, rest))
    {
      AlbumEntryOf(k, album, rest);
    }
  }

  /** `acc` with the keys of `order` set, one after the other, to their values in `m`. */
  function Added<V>(acc: map<Key, V>, m: map<Key, V>, order: seq<Key>): map<Key, V>
    requires Within(order, m)
    decreases |order|
  {
    if order == [] then acc else Added(acc[order[0] := m[order[0]]], m, order[1..])
  }

  /** The keys of `order` with their values in `m`. */
  function Restrict<V>(m: map<Key, V>, order: seq<Key>): (r: map<Key, V>)
    ensures forall k :: k in r <==> k in m && k in order
  {
    map k | k in m && k in order :: m[k]
  }

  /** Setting the keys of `order` adds exactly those keys with their values. */
  lemma {:induction false} AddedRestrict<V>(acc: map<Key, V>, m: map<Key, V>, order: seq<Key>)
    requires Within(order, m)
    ensures Added(acc, m, order) == acc + Restrict(m, order)
    decreases |order|
  {
    if order != [] {
      AddedRestrict(acc[order[0] := m[order[0]]], m, order[1..]);
      assert acc[order[0] := m[order[0]]] + Restrict(m, order[1..]) == acc + Restrict(m, order);
    } else {
      assert acc + Restrict(m, order) == acc;
    }
  }

  /** Setting every key of an enumeration of `m` into an empty map gives `m`. */
  lemma AddedAll<V>(m: map<Key, V>, order: seq<Key>)
    requires Enumerates(order, m)
    ensures Added(map[], m, order) == m
  {
    AddedRestrict(map[], m, order);
    assert map[] + Restrict(m, order) == m;
  }

  /** The first written entry of `order`, with a key not read yet: the loop goes
      on after it with that key added. */
  lemma EntriesHead<V(!new)>(m: map<Key, V>, order: seq<Key>, acc: map<Key, V>, rest: Bytes,
                       entry: Bytes -> Option<Entry<V>>, enc: (Key, V) -> Bytes, fits: V -> bool)
    requires ReadsBack(entry, enc, fits) && AllFit(m, fits)
    requires Within(order, m)
    requires order != [] && order[0] !in acc
    ensures ReadEntries(EntriesBytes(m, order, enc) + rest, |order|, acc, entry)
         == ReadEntries(EntriesBytes(m, order[1..], enc) + rest, |order| - 1, acc[order[0] := m[order[0]]], entry)
  {
    var k := order[0];
    var tail := EntriesBytes(m, order[1..], enc) + rest;
    Assoc(enc(k, m[k]), EntriesBytes(m, order[1..], enc), rest);
    assert entry(enc(k, m[k]) + tail) == Some(Entry(k, m[k], tail));
  }

  /** Reading the written entries of distinct new keys adds exactly those keys. */
  lemma {:induction false} ReadEntriesOf<V(!new)>(m: map<Key, V>, order: seq<Key>, acc: map<Key, V>, rest: Bytes,
                                            entry: Bytes -> Option<Entry<V>>, enc: (Key, V) -> Bytes, fits: V -> bool)
    requires ReadsBack(entry, enc, fits) && AllFit(m, fits)
    requires Within(order, m) && Fresh(order, acc) && Distinct(order)
    ensures ReadEntries(EntriesBytes(m, order, enc) + rest, |order|, acc, entry) == Some(Read(Added(acc, m, order), rest))
    decreases |order|
  {
    if order == [] {
      assert EntriesBytes(m, order, enc) + rest == rest;
    } else {
      var k := order[0];
      EntriesHead(m, order, acc, rest, entry, enc, fits);
      assert Fresh(order[1..], acc[k := m[k]]);
      ReadEntriesOf(m, order[1..], acc[k := m[k]], rest, entry, enc, fits);
    }
  }

  /** The four header words read back as written. */
  lemma HeaderFields(trackCount: nat, albumCount: nat, body: Bytes)
    requires trackCount < U32Limit && albumCount < U32Limit
    ensures var f := Header(trackCount, albumCount) + body;
      && LeValue(f[..4]) == Magic && LeValue(f[4..8]) == Version
      && LeValue(f[8..12]) == trackCount && LeValue(f[12..16]) == albumCount
      && f[HeaderSize..] == body
  {
    var f := Header(trackCount, albumCount) + body;
    PowValues();
    assert f[..4] == Le(Magic, 4) && f[4..8] == Le(Version, 4);
    assert f[8..12] == Le(trackCount, 4) && f[12..16] == Le(albumCount, 4);
    LeRoundTrip(Magic, 4);
    LeRoundTrip(Version, 4);
    LeRoundTrip(trackCount, 4);
    LeRoundTrip(albumCount, 4);
  }

  /** The reads `Decode` does on an encoded file, and where they end. */
  lemma EncodeRead(tracks: map<Key, LatinRecord>, tOrder: seq<Key>, albums: map<Key, Bytes>, aOrder: seq<Key>)
    requires Fits(tracks, albums) && Enumerates(tOrder, tracks) && Enumerates(aOrder, albums)
    ensures var f := Encode(tracks, tOrder, albums, aOrder);
      var ab := EntriesBytes(albums, aOrder, AlbumEntry);
      && HeaderSize <= |f| && LeValue(f[..4]) == Magic && LeValue(f[4..8]) == Version
      && LeValue(f[8..12]) == |tOrder| && LeValue(f[12..16]) == |aOrder|
      && ReadEntries(f[HeaderSize..], |tOrder|, map[], ReadTrackEntry) == Some(Read(tracks, ab))
      && ReadEntries(ab, |aOrder|, map[], ReadAlbumEntry) == Some(Read(albums, []))
  {
    var ab := EntriesBytes(albums, aOrder, AlbumEntry);
    EnumeratesCard(tOrder, tracks);
    EnumeratesCard(aOrder, albums);
    HeaderFields(|tracks|, |albums|, EntriesBytes(tracks, tOrder, TrackEntry) + ab);
    TracksReadBack();
    ReadEntriesOf(tracks, tOrder, map[], ab, ReadTrackEntry, TrackEntry, RecordFits);
    AddedAll(tracks, tOrder);
    AlbumsReadBack();
    ReadEntriesOf(albums, aOrder, map[], [], ReadAlbumEntry, AlbumEntry, AlbumFits);
    assert ab + [] == ab;
    AddedAll(albums, aOrder);
  }

  /** Round trip: the maps `save_locked` writes, in any iteration order, are the
      maps `load_locked` reads back. */
  lemma DecodeEncode(tracks: map<Key, LatinRecord>, tOrder: seq<Key>, albums: map<Key, Bytes>, aOrder: seq<Key>)
    requires Fits(tracks, albums) && Enumerates(tOrder, tracks) && Enumerates(aOrder, albums)
    ensures Decode(Encode(tracks, tOrder, albums, aOrder)) == Loaded(tracks, albums)
  {
    EncodeRead(tracks, tOrder, albums, aOrder);
  }

  /** `emplace` keeps the first of two entries with the same key. */
  lemma DuplicateKeepsFirst(k: Key, first: LatinRecord, second: LatinRecord, rest: Bytes)
    requires RecordFits(first) && RecordFits(second)
    ensures ReadEntries(TrackEntry(k, first) + TrackEntry(k, second) + rest, 2, map[], ReadTrackEntry)
         == Some(Read(map[k := first], rest))
  {
    var tail := TrackEntry(k, second) + rest;
    Assoc(TrackEntry(k, first), TrackEntry(k, second), rest);
    TrackEntryOf(k, first, tail);
    TrackEntryOf(k, second, rest);
  }

  // ---------------------------------------------------------------------------
  // A short file: every read is a prefix of the same read on a longer file

  lemma ReadLeAppend(s: Bytes, n: nat, u: Bytes)
    ensures ReadLe(s, n).Some? ==> ReadLe(s + u, n) == Some(Read(ReadLe(s, n).value.value, ReadLe(s, n).value.rest + u))
  {
    if n <= |s| {
      PrefixAppend(s, u, n);
    }
  }

  lemma ReadKeyAppend(s: Bytes, u: Bytes)
    ensures ReadKey(s).Some? ==> ReadKey(s + u) == Some(Read(ReadKey(s).value.value, ReadKey(s).value.rest + u))
  {
    if 8 <= |s| {
      PrefixAppend(s, u, 8);
    }
  }

  lemma ReadStringAppend(s: Bytes, u: Bytes)
    ensures ReadString(s).Some? ==> ReadString(s + u) == Some(Read(ReadString(s).value.value, ReadString(s).value.rest + u))
  {
    ReadLeAppend(s, 4, u);
    if ReadLe(s, 4).Some? {
      var len := ReadLe(s, 4).value;
      if len.value <= |len.rest| {
        PrefixAppend(len.rest, u, len.value);
      }
    }
  }

  /** `entry` reads only the bytes it consumes: more bytes behind change nothing
      but what is left over. */
  ghost predicate AppendStable<V>(entry: Bytes -> Option<Entry<V>>) {
    forall s, u :: entry(s).Some? ==>
      entry(s + u) == Some(Entry(entry(s).value.key, entry(s).value.value, entry(s).value.rest + u))
  }

  lemma TracksStable()
    ensures AppendStable(ReadTrackEntry)
  {
    forall s, u | ReadTrackEntry(s).Some?
      ensures ReadTrackEntry(s + u)
           == Some(Entry(ReadTrackEntry(s).value.key, ReadTrackEntry(s).value.value, ReadTrackEntry(s).value.rest + u))
    {
      ReadKeyAppend(s, u);
      var k := ReadKey(s).value;
      ReadStringAppend(k.rest, u);
      ReadStringAppend(ReadString(k.rest).value.rest, u);
    }
  }

  lemma AlbumsStable()
    ensures AppendStable(ReadAlbumEntry)
  {
    forall s, u | ReadAlbumEntry(s).Some?
      ensures ReadAlbumEntry(s + u)
           == Some(Entry(ReadAlbumEntry(s).value.key, ReadAlbumEntry(s).value.value, ReadAlbumEntry(s).value.rest + u))
    {
      ReadKeyAppend(s, u);
      ReadStringAppend(ReadKey(s).value.rest, u);
    }
  }

  /** A loop that reads its entries succeeds alike with more bytes behind and
      leaves those bytes over. */
  lemma {:induction false} ReadEntriesAppend<V>(s: Bytes, n: nat, acc: map<Key, V>, entry: Bytes -> Option<Entry<V>>, u: Bytes)
    requires AppendStable(entry)
    ensures var r := ReadEntries(s, n, acc, entry);
      r.Some? ==> ReadEntries(s + u, n, acc, entry) == Some(Read(r.value.value, r.value.rest + u))
    decreases n
  {
    if n > 0 && entry(s).Some? {
      var e := entry(s).value;
      ReadEntriesAppend(e.rest, n - 1, Emplace(acc, e.key, e.value), entry, u);
    }
  }

  /** Entries that are read up to the last byte fail to read from any proper prefix. */
  lemma ShortBody(body: Bytes, tc: nat, ac: nat, rest: Bytes, m: nat)
    requires ReadEntries(body, tc, map[], ReadTrackEntry).Some?
    requires ReadEntries(body, tc, map[], ReadTrackEntry).value.rest == rest
    requires ReadEntries(rest, ac, map[], ReadAlbumEntry).Some?
    requires ReadEntries(rest, ac, map[], ReadAlbumEntry).value.rest == []
    requires m < |body|
    ensures var rt := ReadEntries(body[..m], tc, map[], ReadTrackEntry);
      rt.None? || ReadEntries(rt.value.rest, ac, map[], ReadAlbumEntry).None?
  {
    var t, u := body[..m], body[m..];
    assert t + u == body;
    TracksStable();
    ReadEntriesAppend(t, tc, map[], ReadTrackEntry, u);
    var rt := ReadEntries(t, tc, map[], ReadTrackEntry);
    if rt.Some? {
      AlbumsStable();
      ReadEntriesAppend(rt.value.rest, ac, map[], ReadAlbumEntry, u);
    }
  }

  /** A file whose track or album loop runs short loads as two empty maps. */
  lemma DecodeShort(t: Bytes, tc: nat, ac: nat)
    requires HeaderSize <= |t| && LeValue(t[8..12]) == tc && LeValue(t[12..16]) == ac
    requires var rt := ReadEntries(t[HeaderSize..], tc, map[], ReadTrackEntry);
      rt.None? || ReadEntries(rt.value.rest, ac, map[], ReadAlbumEntry).None?
    ensures Decode(t) == Empty
  {
  }

  /** Cutting a file after its header keeps the header and cuts the body. */
  lemma CutHeader(f: Bytes, m: nat)
    requires HeaderSize <= m <= |f|
    ensures f[..m][8..12] == f[8..12] && f[..m][12..16] == f[12..16]
    ensures f[..m][HeaderSize..] == f[HeaderSize..][..m - HeaderSize]
  {
  }

  /** A file whose entries are read up to its last byte, cut short after its header. */
  lemma TruncatedBody(f: Bytes, tc: nat, ac: nat, ab: Bytes, m: nat)
    requires HeaderSize <= m < |f|
    requires LeValue(f[8..12]) == tc && LeValue(f[12..16]) == ac
    requires ReadEntries(f[HeaderSize..], tc, map[], ReadTrackEntry).Some?
    requires ReadEntries(f[HeaderSize..], tc, map[], ReadTrackEntry).value.rest == ab
    requires ReadEntries(ab, ac, map[], ReadAlbumEntry).Some?
    requires ReadEntries(ab, ac, map[], ReadAlbumEntry).value.rest == []
    ensures Decode(f[..m]) == Empty
  {
    var t := f[..m];
    assert HeaderSize <= |t| && LeValue(t[8..12]) == tc && LeValue(t[12..16]) == ac
      && var rt := ReadEntries(t[HeaderSize..], tc, map[], ReadTrackEntry);
         rt.None? || ReadEntries(rt.value.rest, ac, map[], ReadAlbumEntry).None?
    by {
      CutHeader(f, m);
      ShortBody(f[HeaderSize..], tc, ac, ab, m - HeaderSize);
    }
    DecodeShort(t, tc, ac);
  }

  /** A file cut short anywhere loads as two empty maps, never as part of its
      entries: the read that runs past the end throws. */
  lemma TruncatedDecode(tracks: map<Key, LatinRecord>, tOrder: seq<Key>, albums: map<Key, Bytes>, aOrder: seq<Key>,
                        m: nat)
    requires Fits(tracks, albums) && Enumerates(tOrder, tracks) && Enumerates(aOrder, albums)
    requires m < |Encode(tracks, tOrder, albums, aOrder)|
    ensures Decode(Encode(tracks, tOrder, albums, aOrder)[..m]) == Empty
  {
    if HeaderSize <= m {
      EncodeRead(tracks, tOrder, albums, aOrder);
      TruncatedBody(Encode(tracks, tOrder, albums, aOrder), |tOrder|, |aOrder|, EntriesBytes(albums, aOrder, AlbumEntry), m);
    }
  }

  // ---------------------------------------------------------------------------
  // The loops of load_locked and save_locked

  /** A loop of `load_locked`: `n` entries read by `entry` and added with
      `emplace`; `None` when a read runs short. */
  method LoadEntries<V>(s0: Bytes, n: nat, entry: Bytes -> Option<Entry<V>>) returns (r: Option<Read<map<Key, V>>>)
    ensures r == ReadEntries(s0, n, map[], entry)
  {
    var m: map<Key, V> := map[];
    var s := s0;
    var i := 0;
    while i < n
      invariant i <= n
      invariant ReadEntries(s, n - i, m, entry) == ReadEntries(s0, n, map[], entry)
    {
      var e := entry(s);
      if e.None? {
        return None;
      }
      m := Emplace(m, e.value.key, e.value.value);
      s := e.value.rest;
      i := i + 1;
    }
    return Some(Read(m, s));
  }

  /** `load_locked` once the file is open: the header, then the entries one
      after the other; a read that runs short empties both maps. */
  method Load(f: Bytes) returns (tracks: map<Key, LatinRecord>, albums: map<Key, Bytes>)
    ensures Loaded(tracks, albums) == Decode(f)
  {
    tracks, albums := map[], map[];
    if |f| < 8 {
      return;
    }
    var magic, version := LeValue(f[..4]), LeValue(f[4..8]);
    if magic != Magic || version != Version {
      return;
    }
    if |f| < HeaderSize {
      return;
    }
    var trackCount, albumCount := LeValue(f[8..12]), LeValue(f[12..16]);
    var rt := LoadEntries(f[HeaderSize..], trackCount, ReadTrackEntry);
    if rt.None? {
      return;
    }
    var ra := LoadEntries(rt.value.rest, albumCount, ReadAlbumEntry);
    if ra.None? {
      return;
    }
    tracks, albums := rt.value.value, ra.value.value;
  }

  /** Writing the entries in order: one more key adds its entry at the end. */
  lemma {:induction false} EntriesBytesSnoc<V>(m: map<Key, V>, order: seq<Key>, k: Key, enc: (Key, V) -> Bytes)
    requires Within(order, m) && k in m
    ensures EntriesBytes(m, order + [k], enc) == EntriesBytes(m, order, enc) + enc(k, m[k])
    decreases |order|
  {
    if order == [] {
      assert [] + [k] == [k];
    } else {
      assert (order + [k])[1..] == order[1..] + [k];
      EntriesBytesSnoc(m, order[1..], k, enc);
    }
  }

  /** A loop of `save_locked`: every key of the map once, in the order the
      loop visits them (which it returns), each written by `enc`. */
  method WriteEntries<V>(m: map<Key, V>, enc: (Key, V) -> Bytes) returns (body: Bytes, order: seq<Key>)
    ensures Enumerates(order, m)
    ensures body == EntriesBytes(m, order, enc)
  {
    body, order := [], [];
    var left := m.Keys;
    while left != {}
      invariant left <= m.Keys
      invariant Distinct(order) && Within(order, m)
      invariant forall k :: k in m ==> (k in left <==> k !in order)
      invariant body == EntriesBytes(m, order, enc)
      decreases |left|
    {
      var k :| k in left;
      EntriesBytesSnoc(m, order, k, enc);
      body := body + enc(k, m[k]);
      order := order + [k];
      left := left - {k};
    }
  }

  /** `save_locked` once the file is open: the header with both counts, then
      every track entry and every album entry in the maps' iteration order,
      which it also returns. What it writes loads back as the same maps
      whenever the counts and lengths fit their u32 fields. */
  method Save(tracks: map<Key, LatinRecord>, albums: map<Key, Bytes>) returns (f: Bytes, tOrder: seq<Key>, aOrder: seq<Key>)
    ensures Enumerates(tOrder, tracks) && Enumerates(aOrder, albums)
    ensures f == Encode(tracks, tOrder, albums, aOrder)
    ensures Fits(tracks, albums) ==> Decode(f) == Loaded(tracks, albums)
  {
    var body, albumBody;
    body, tOrder := WriteEntries(tracks, TrackEntry);
    albumBody, aOrder := WriteEntries(albums, AlbumEntry);
    f := Header(|tracks|, |albums|) + (body + albumBody);
    if Fits(tracks, albums) {
      DecodeEncode(tracks, tOrder, albums, aOrder);
    }
  }
}
