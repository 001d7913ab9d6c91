/** Extraction of the two answer lines, `title_latin: ...` and
    `album_latin: ...`, from the model's answer text (`match_key_ci`,
    `skip_separators`, `parse_latin_lines`). */
module Lines {
  import opened Bytes
  import opened Records
  import opened Text

  // ---------------------------------------------------------------------------
  // match_key_ci

  /** Bytes `match_key_ci` steps over while matching: space, tab, `_`, `-`. */
  predicate IsKeyFiller(b: byte) { b == ' ' || b == '\t' || b == '_' || b == '-' }

  /** The leading spaces and tabs `match_key_ci` skips before it starts. */
  function SkipIndent(s: Bytes, i: nat): (k: nat)
    requires i <= |s|
    ensures i <= k <= |s|
    decreases |s| - i
  {
    if i < |s| && (s[i] == ' ' || s[i] == '\t') then SkipIndent(s, i + 1) else i
  }

  /** The matching loop from line index `i` and key index `j`: the index just
      after the last key byte matched, or `None` on a mismatch or a short line. */
  function MatchFrom(s: Bytes, i: nat, key: Bytes, j: nat): (r: Option<nat>)
    requires i <= |s| && j <= |key|
    ensures r.Some? ==> i <= r.value <= |s|
    decreases |s| - i
  {
    if j == |key| then Some(i)
    else if i == |s| then None
    else if IsKeyFiller(s[i]) then MatchFrom(s, i + 1, key, j)
    else if ToLower(s[i]) != ToLower(key[j]) then None
    else MatchFrom(s, i + 1, key, j + 1)
  }

  /** `match_key_ci(line, key, consumed)`: `Some(consumed)` on a match. */
  function MatchKey(line: Bytes, key: Bytes): (r: Option<nat>)
    ensures r.Some? ==> r.value <= |line|
  {
    MatchFrom(line, SkipIndent(line, 0), key, 0)
  }

  /** The loop of `match_key_ci` (latinize.cpp). */
  method MatchKeyCi(line: Bytes, key: Bytes) returns (r: Option<nat>)
    ensures r == MatchKey(line, key)
  {
    var i := 0;
    while i < |line| && (line[i] == ' ' || line[i] == '\t')
      invariant i <= |line| && SkipIndent(line, i) == SkipIndent(line, 0)
    {
      i := i + 1;
    }
    var j := 0;
    while j < |key| && i < |line|
      invariant i <= |line| && j <= |key|
      invariant MatchFrom(line, i, key, j) == MatchKey(line, key)
    {
      var c := line[i];
      if IsKeyFiller(c) {
        i := i + 1;
        continue;
      }
      if ToLower(c) != ToLower(key[j]) {
        return None;
      }
      i := i + 1;
      j := j + 1;
    }
    if j != |key| {
      return None;
    }
    r := Some(i);
  }

  /** A line with its filler bytes removed and its letters lower-cased: what
      `match_key_ci` compares against the key. */
  function KeyForm(s: Bytes): Bytes {
    if s == [] then [] else (if IsKeyFiller(s[0]) then [] else [ToLower(s[0])]) + KeyForm(s[1..])
  }

  lemma {:induction false} KeyFormAppend(a: Bytes, b: Bytes)
    ensures KeyForm(a + b) == KeyForm(a) + KeyForm(b)
  {
    if a != [] {
      assert (a + b)[1..] == a[1..] + b;
      KeyFormAppend(a[1..], b);
    } else {
      assert a + b == b;
    }
  }

  predicate NoFiller(key: Bytes) {
    forall k :: 0 <= k < |key| ==> !IsKeyFiller(key[k])
  }

  lemma PrefixCons<T>(x: T, a: seq<T>, y: T, b: seq<T>)
    ensures ([x] + a <= [y] + b) <==> (x == y && a <= b)
  {
    if [x] + a <= [y] + b {
      assert ([x] + a)[0] == ([y] + b)[0];
      assert forall k :: 0 <= k < |a| ==> a[k] == ([x] + a)[k + 1];
    }
  }

  lemma KeyFormAt(s: Bytes, i: nat)
    requires i < |s|
    ensures KeyForm(s[i..]) == (if IsKeyFiller(s[i]) then [] else [ToLower(s[i])]) + KeyForm(s[i + 1..])
  {
    assert s[i..][1..] == s[i + 1..];
  }

  lemma KeyFormSpan(s: Bytes, i: nat, c: nat)
    requires i < c <= |s|
    ensures KeyForm(s[i..c]) == (if IsKeyFiller(s[i]) then [] else [ToLower(s[i])]) + KeyForm(s[i + 1..c])
  {
    assert s[i..c][1..] == s[i + 1..c];
  }

  lemma {:induction false} MatchFromIff(s: Bytes, i: nat, key: Bytes, j: nat)
    requires i <= |s| && j <= |key| && NoFiller(key)
    ensures MatchFrom(s, i, key, j).Some? <==> KeyForm(key[j..]) <= KeyForm(s[i..])
    ensures MatchFrom(s, i, key, j).Some? ==>
      var c := MatchFrom(s, i, key, j).value;
      i <= c <= |s| && KeyForm(s[i..c]) == KeyForm(key[j..])
    decreases |s| - i
  {
    if j == |key| {
      assert s[i..i] == [];
    } else if i == |s| {
      KeyFormAt(key, j);
    } else {
      KeyFormAt(s, i);
      MatchFromIff(s, i + 1, key, if IsKeyFiller(s[i]) then j else j + 1);
      if !IsKeyFiller(s[i]) {
        KeyFormAt(key, j);
        PrefixCons(ToLower(key[j]), KeyForm(key[j + 1..]), ToLower(s[i]), KeyForm(s[i + 1..]));
      }
      if MatchFrom(s, i, key, j).Some? {
        KeyFormSpan(s, i, MatchFrom(s, i, key, j).value);
      }
    }
  }

  lemma {:induction false} SkipIndentFiller(s: Bytes, i: nat)
    requires i <= |s|
    ensures KeyForm(s[i..SkipIndent(s, i)]) == []
    decreases |s| - i
  {
    if i < |s| && (s[i] == ' ' || s[i] == '\t') {
      SkipIndentFiller(s, i + 1);
      assert s[i..SkipIndent(s, i)] == [s[i]] + s[i + 1..SkipIndent(s, i)];
      KeyFormAppend([s[i]], s[i + 1..SkipIndent(s, i)]);
    } else {
      assert s[i..i] == [];
    }
  }

  /** For a key without filler bytes, `match_key_ci` succeeds iff the
      lower-cased, filler-free form of the line begins with the key's, and the
      bytes it reports as consumed spell exactly the key. */
  lemma MatchKeyIff(line: Bytes, key: Bytes)
    requires NoFiller(key)
    ensures MatchKey(line, key).Some? <==> KeyForm(key) <= KeyForm(line)
    ensures MatchKey(line, key).Some? ==>
      var c := MatchKey(line, key).value;
      c <= |line| && KeyForm(line[..c]) == KeyForm(key)
  {
    var i0 := SkipIndent(line, 0);
    SkipIndentFiller(line, 0);
    MatchFromIff(line, i0, key, 0);
    assert line == line[0..i0] + line[i0..];
    KeyFormAppend(line[0..i0], line[i0..]);
    assert key[0..] == key;
    if MatchKey(line, key).Some? {
      var c := MatchKey(line, key).value;
      assert line[..c] == line[0..i0] + line[i0..c];
      KeyFormAppend(line[0..i0], line[i0..c]);
    }
  }

  // ---------------------------------------------------------------------------
  // skip_separators

  /** Bytes `skip_separators` steps over after a key: space, tab, `:`, `-`. */
  predicate IsValueSeparator(b: byte) { b == ' ' || b == '\t' || b == ':' || b == '-' }

  function SkipSeps(s: Bytes, i: nat): (k: nat)
    requires i <= |s|
    ensures i <= k <= |s|
    decreases |s| - i
  {
    if i < |s| && IsValueSeparator(s[i]) then SkipSeps(s, i + 1) else i
  }

  /** `skip_separators` stops at the first byte at or after `i` that is not a separator. */
  lemma {:induction false} SkipSepsFirst(s: Bytes, i: nat)
    requires i <= |s|
    ensures forall k :: i <= k < SkipSeps(s, i) ==> IsValueSeparator(s[k])
    ensures SkipSeps(s, i) < |s| ==> !IsValueSeparator(s[SkipSeps(s, i)])
    decreases |s| - i
  {
    if i < |s| && IsValueSeparator(s[i]) {
      SkipSepsFirst(s, i + 1);
    }
  }

  /** The loop of `skip_separators` (latinize.cpp). */
  method SkipSeparators(s: Bytes, i: nat) returns (k: nat)
    requires i <= |s|
    ensures k == SkipSeps(s, i)
  {
    k := i;
    while k < |s| && IsValueSeparator(s[k])
      invariant i <= k <= |s| && SkipSeps(s, k) == SkipSeps(s, i)
    {
      k := k + 1;
    }
  }

  // ---------------------------------------------------------------------------
  // parse_latin_lines

  const TitleKey: Bytes := "titlelatin"
  const AlbumKey: Bytes := "albumlatin"

  predicate IsNewline(b: byte) { b == '\r' || b == '\n' }

  /** Length of the first line of `s`: the bytes before the first CR or LF. */
  function LineLen(s: Bytes): (n: nat)
    ensures n <= |s|
  {
    if s == [] || IsNewline(s[0]) then 0 else 1 + LineLen(s[1..])
  }

  lemma {:induction false} LineLenIs(s: Bytes, n: nat)
    requires n <= |s| && (n == |s| || IsNewline(s[n]))
    requires forall k :: 0 <= k < n ==> !IsNewline(s[k])
    ensures LineLen(s) == n
  {
    if n > 0 {
      LineLenIs(s[1..], n - 1);
    }
  }

  /** The non-empty lines of `s`, split at runs of CR and LF. */
  function Lines(s: Bytes): seq<Bytes>
    decreases |s|
  {
    if s == [] then []
    else if IsNewline(s[0]) then Lines(s[1..])
    else [s[..LineLen(s)]] + Lines(s[LineLen(s)..])
  }

  /** The raw (trimmed, not yet sanitised) values found so far: `t` and `a`. */
  datatype Found = Found(title: Bytes, album: Bytes)

  /** The trimmed value after the key and its separators. */
  function ValueAfter(line: Bytes, c: nat): Bytes
    requires c <= |line|
  {
    Trim(line[SkipSeps(line, c)..])
  }

  /** The value a line gives for the title, if it is a title line. */
  function TitleValue(line: Bytes): Option<Bytes> {
    match MatchKey(line, TitleKey)
    case Some(c) => Some(ValueAfter(line, c))
    case None => None
  }

  /** The value a line gives for the album, if it is an album line (and not a title line). */
  function AlbumValue(line: Bytes): Option<Bytes> {
    if TitleValue(line).Some? then None
    else match MatchKey(line, AlbumKey)
      case Some(c) => Some(ValueAfter(line, c))
      case None => None
  }

  /** One line of the `parse_latin_lines` loop. */
  function LineStep(line: Bytes, f: Found): Found {
    if TitleValue(line).Some? then Found(TitleValue(line).value, f.album)
    else if AlbumValue(line).Some? then Found(f.title, AlbumValue(line).value)
    else f
  }

  function FoldLines(lines: seq<Bytes>, f: Found): Found
    decreases |lines|
  {
    if lines == [] then f else FoldLines(lines[1..], LineStep(lines[0], f))
  }

  /** `parse_latin_lines(text, out)`: both fields sanitised; success iff one is non-empty. */
  function ParseLines(text: Bytes): Option<LatinRecord> {
    var f := FoldLines(Lines(text), Found([], []));
    var r := LatinRecord(Sanitize(f.title), Sanitize(f.album));
    if r.title != [] || r.album != [] then Some(r) else None
  }

  /** One line of the `parse_latin_lines` loop body (latinize.cpp). */
  method ParseLine(line: Bytes, t: Bytes, a: Bytes) returns (t': Bytes, a': Bytes)
    ensures Found(t', a') == LineStep(line, Found(t, a))
  {
    t', a' := t, a;
    var m := MatchKeyCi(line, TitleKey);
    if m.Some? {
      var q := SkipSeparators(line, m.value);
      t' := TrimAscii(line[q..]);
    } else {
      m := MatchKeyCi(line, AlbumKey);
      if m.Some? {
        var q := SkipSeparators(line, m.value);
        a' := TrimAscii(line[q..]);
      }
    }
  }

  /** Cutting the line that starts at `lineStart` and ends before `p` leaves the rest of the lines. */
  lemma CutLine(text: Bytes, lineStart: nat, p: nat, f: Found)
    requires lineStart <= p <= |text| && (p == |text| || IsNewline(text[p]))
    requires lineStart < |text| ==> !IsNewline(text[lineStart])
    requires forall k :: lineStart <= k < p ==> !IsNewline(text[k])
    ensures FoldLines(Lines(text[lineStart..]), f) == FoldLines(Lines(text[p..]), LineStep(text[lineStart..p], f))
  {
    var line := text[lineStart..p];
    if lineStart < p {
      LineLenIs(text[lineStart..], p - lineStart);
      assert text[lineStart..][LineLen(text[lineStart..])..] == text[p..];
      assert text[lineStart..][..LineLen(text[lineStart..])] == line;
      assert Lines(text[lineStart..]) == [line] + Lines(text[p..]);
    } else {
      assert lineStart == |text|;
      assert LineStep(line, f) == f;
    }
  }

  /** The inner loop that skips line breaks: the lines from there are the same. */
  method SkipNewlines(text: Bytes, p: nat) returns (q: nat)
    requires p <= |text|
    ensures p <= q <= |text| && (q < |text| ==> !IsNewline(text[q]))
    ensures Lines(text[q..]) == Lines(text[p..])
  {
    q := p;
    while q < |text| && IsNewline(text[q])
      invariant p <= q <= |text| && Lines(text[q..]) == Lines(text[p..])
    {
      assert text[q..][1..] == text[q + 1..];
      q := q + 1;
    }
  }

  /** The inner loop that finds the end of a line: the next CR or LF, or the end. */
  method LineEnd(text: Bytes, start: nat) returns (e: nat)
    requires start <= |text|
    ensures start <= e <= |text| && (e == |text| || IsNewline(text[e]))
    ensures forall k :: start <= k < e ==> !IsNewline(text[k])
  {
    e := start;
    while e < |text| && !IsNewline(text[e])
      invariant start <= e <= |text|
      invariant forall k :: start <= k < e ==> !IsNewline(text[k])
    {
      e := e + 1;
    }
  }

  /** The loop of `parse_latin_lines` (latinize.cpp): skip line breaks, cut a
      line, test it for either key, keep the trimmed value after the key. */
  method ParseLatinLines(text: Bytes) returns (r: Option<LatinRecord>)
    ensures r == ParseLines(text)
  {
    var t: Bytes, a: Bytes := [], [];
    var p := 0;
    while p < |text|
      invariant p <= |text|
      invariant FoldLines(Lines(text[p..]), Found(t, a)) == FoldLines(Lines(text), Found([], []))
    {
      var lineStart := SkipNewlines(text, p);
      p := LineEnd(text, lineStart);
      CutLine(text, lineStart, p, Found(t, a));
      t, a := ParseLine(text[lineStart..p], t, a);
    }
    assert text[|text|..] == [];
    var title := SanitizeLatin(t);
    var album := SanitizeLatin(a);
    if |title| > 0 || |album| > 0 {
      r := Some(LatinRecord(title, album));
    } else {
      r := None;
    }
  }

  /** The value of the last line in `lines` that gives one, or `dflt`. */
  function LastTitle(lines: seq<Bytes>, dflt: Bytes): Bytes
    decreases |lines|
  {
    if lines == [] then dflt
    else if TitleValue(lines[|lines| - 1]).Some? then TitleValue(lines[|lines| - 1]).value
    else LastTitle(lines[..|lines| - 1], dflt)
  }

  function LastAlbum(lines: seq<Bytes>, dflt: Bytes): Bytes
    decreases |lines|
  {
    if lines == [] then dflt
    else if AlbumValue(lines[|lines| - 1]).Some? then AlbumValue(lines[|lines| - 1]).value
    else LastAlbum(lines[..|lines| - 1], dflt)
  }

  lemma {:induction false} FoldLinesSnoc(lines: seq<Bytes>, line: Bytes, f: Found)
    ensures FoldLines(lines + [line], f) == LineStep(line, FoldLines(lines, f))
    decreases |lines|
  {
    if lines == [] {
      assert lines + [line] == [line];
    } else {
      assert (lines + [line])[1..] == lines[1..] + [line];
      FoldLinesSnoc(lines[1..], line, LineStep(lines[0], f));
    }
  }

  /** In `parse_latin_lines` the last title line and the last album line win,
      whatever comes before them. */
  lemma {:induction false} LastLineWins(lines: seq<Bytes>, f: Found)
    ensures FoldLines(lines, f) == Found(LastTitle(lines, f.title), LastAlbum(lines, f.album))
    decreases |lines|
  {
    if lines != [] {
      var init := lines[..|lines| - 1];
      assert lines == init + [lines[|lines| - 1]];
      FoldLinesSnoc(init, lines[|lines| - 1], f);
      LastLineWins(init, f);
    }
  }

  /** A successful `parse_latin_lines` returns sanitised fields, at least one of them non-empty. */
  lemma ParseLinesCanonical(text: Bytes)
    ensures ParseLines(text).Some? ==>
      var r := ParseLines(text).value;
      Canonical(r.title) && Canonical(r.album) && (r.title != [] || r.album != [])
  {
    var f := FoldLines(Lines(text), Found([], []));
    SanitizeCanonical(f.title);
    SanitizeCanonical(f.album);
  }
}
