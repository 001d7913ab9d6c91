/** The search box of the cache page (preferences.cpp `CPrefsCache`): the
    filter text it keeps, and the test that decides which cache rows it lists. */
module Prefs {
  import opened Bytes
  import opened Records
  import Text

  // ---------------------------------------------------------------------------
  // ASCII helpers

  /** No byte `>= 0x80`. */
  predicate AsciiOnly(s: Bytes) {
    forall i :: 0 <= i < |s| ==> s[i] < '\U{80}'
  }

  /** `IsAsciiOnly`: scans until the first byte `>= 0x80`. */
  method IsAsciiOnly(s: Bytes) returns (r: bool)
    ensures r <==> AsciiOnly(s)
  {
    var i := 0;
    while i < |s|
      invariant 0 <= i <= |s|
      invariant forall k :: 0 <= k < i ==> s[k] < '\U{80}'
    {
      if s[i] >= '\U{80}' {
        return false;
      }
      i := i + 1;
    }
    return true;
  }

  /** The bytes of `s` below 0x80, in order. */
  function AsciiPart(s: Bytes): Bytes {
    if s == [] then [] else AsciiPart(s[..|s| - 1]) + AddChar(s[|s| - 1])
  }

  /** Keeping the bytes below 0x80 gives an ASCII-only string, and an
      ASCII-only string keeps all its bytes. */
  lemma AsciiPartOf(s: Bytes)
    ensures AsciiOnly(AsciiPart(s)) && |AsciiPart(s)| <= |s|
    ensures AsciiOnly(s) ==> AsciiPart(s) == s
  {
    AsciiPartAscii(s);
    if AsciiOnly(s) {
      AsciiPartKeeps(s);
    }
  }

  lemma {:induction false} AsciiPartAscii(s: Bytes)
    ensures forall i :: 0 <= i < |AsciiPart(s)| ==> AsciiPart(s)[i] < '\U{80}'
    ensures |AsciiPart(s)| <= |s|
  {
    if s != [] {
      var p, c := s[..|s| - 1], s[|s| - 1];
      AsciiPartAscii(p);
      var a, t := AsciiPart(p), AddChar(c);
      assert AsciiPart(s) == a + t;
      assert forall i :: 0 <= i < |t| ==> t[i] < '\U{80}';
      forall i | 0 <= i < |a + t|
        ensures (a + t)[i] < '\U{80}'
      {
        if i < |a| { assert (a + t)[i] == a[i]; } else { assert (a + t)[i] == t[i - |a|]; }
      }
    }
  }

  lemma {:induction false} AsciiPartKeeps(s: Bytes)
    requires forall i :: 0 <= i < |s| ==> s[i] < '\U{80}'
    ensures AsciiPart(s) == s
  {
    if s != [] {
      var p, c := s[..|s| - 1], s[|s| - 1];
      assert forall i :: 0 <= i < |p| ==> p[i] == s[i];
      AsciiPartKeeps(p);
      assert AddChar(c) == [c];
      assert s == p + [c];
    }
  }

  /** What `AsciiLower` returns: every byte passed through `tolower` and
      appended with `add_char`, which drops a byte `>= 0x80`. */
  function Lower(s: Bytes): Bytes {
    if s == [] then [] else Lower(s[..|s| - 1]) + AddChar(ToLower(s[|s| - 1]))
  }

  /** Lowering keeps exactly the bytes below 0x80 and maps each on its own:
      `A`-`Z` become `a`-`z` and the other ASCII bytes stay. */
  lemma {:induction false} LowerAt(s: Bytes)
    ensures |Lower(s)| == |AsciiPart(s)|
    ensures forall i :: 0 <= i < |Lower(s)| ==> Lower(s)[i] == ToLower(AsciiPart(s)[i])
    ensures forall i :: 0 <= i < |Lower(s)| ==> (Lower(s)[i] != AsciiPart(s)[i] <==> IsUpper(AsciiPart(s)[i]))
  {
    if s != [] {
      LowerAt(s[..|s| - 1]);
    }
  }

  /** Lowering gives ASCII-only text, is idempotent, and keeps the length of
      an ASCII-only string. */
  lemma LowerIdempotent(s: Bytes)
    ensures AsciiOnly(Lower(s))
    ensures Lower(Lower(s)) == Lower(s)
    ensures AsciiOnly(s) ==> |Lower(s)| == |s|
  {
    LowerAt(s);
    AsciiPartOf(s);
    assert AsciiOnly(Lower(s));
    LowerAt(Lower(s));
    AsciiPartOf(Lower(s));
  }

  /** `AsciiLower`: appends the lowered bytes one at a time. */
  method AsciiLower(s: Bytes) returns (out: Bytes)
    ensures out == Lower(s)
  {
    out := [];
    for i := 0 to |s|
      invariant out == Lower(s[..i])
    {
      assert s[..i + 1][..i] == s[..i];
      out := out + AddChar(ToLower(s[i]));
    }
    assert s[..|s|] == s;
  }

  /** `n` occurs in `h` at `i` when case is ignored. */
  predicate OccursCI(h: Bytes, n: Bytes, i: int) {
    0 <= i && i + |n| <= |h| && forall k :: 0 <= k < |n| ==> ToLower(h[i + k]) == ToLower(n[k])
  }

  /** `ContainsAsciiCI`: `strstr` on both strings lowered. */
  function ContainsAsciiCI(h: Bytes, n: Bytes): bool {
    Contains(Lower(h), Lower(n))
  }

  /** The lowered search finds `n` exactly when, with the bytes `>= 0x80` of
      both strings left out, `n` occurs in `h` up to case. */
  lemma ContainsAsciiCIIff(h: Bytes, n: Bytes)
    ensures ContainsAsciiCI(h, n) <==> exists i :: OccursCI(AsciiPart(h), AsciiPart(n), i)
  {
    var ah, an := AsciiPart(h), AsciiPart(n);
    LowerAt(h);
    LowerAt(n);
    ContainsIff(Lower(h), Lower(n));
    forall i
      ensures OccursAt(Lower(h), Lower(n), i) <==> OccursCI(ah, an, i)
    {
      if 0 <= i && i + |an| <= |ah| {
        assert (forall k :: 0 <= k < |an| ==> Lower(h)[i + k] == Lower(n)[k])
          <==> (forall k :: 0 <= k < |an| ==> ToLower(ah[i + k]) == ToLower(an[k]));
      }
    }
  }

  // ---------------------------------------------------------------------------
  // The filter

  /** `MatchesFilter` for the filter text `filter`: every row when it is empty;
      a case-insensitive search of title and album when it is ASCII-only; an
      exact byte search otherwise. */
  function MatchesFilter(filter: Bytes, e: CacheEntry): bool {
    if |filter| == 0 then true
    else if AsciiOnly(filter) then ContainsAsciiCI(e.title, filter) || ContainsAsciiCI(e.album, filter)
    else Contains(e.title, filter) || Contains(e.album, filter)
  }

  /** Which rows a filter lists, stated by occurrences. An ASCII-only filter
      is looked for in the title and album with their bytes `>= 0x80` left out. */
  lemma MatchesFilterIff(filter: Bytes, e: CacheEntry)
    ensures filter == [] ==> MatchesFilter(filter, e)
    ensures filter != [] && AsciiOnly(filter) ==>
      (MatchesFilter(filter, e) <==>
         (exists i :: OccursCI(AsciiPart(e.title), filter, i)) || (exists i :: OccursCI(AsciiPart(e.album), filter, i)))
    ensures filter != [] && !AsciiOnly(filter) ==>
      (MatchesFilter(filter, e) <==> (exists i :: OccursAt(e.title, filter, i)) || (exists i :: OccursAt(e.album, filter, i)))
  {
    AsciiPartOf(filter);
    ContainsAsciiCIIff(e.title, filter);
    ContainsAsciiCIIff(e.album, filter);
    ContainsIff(e.title, filter);
    ContainsIff(e.album, filter);
  }

  /** An ASCII-only filter lists the same rows whatever the case it is typed in. */
  lemma AsciiFilterIgnoresCase(filter: Bytes, e: CacheEntry)
    requires AsciiOnly(filter)
    ensures MatchesFilter(Lower(filter), e) == MatchesFilter(filter, e)
  {
    LowerIdempotent(filter);
  }

  /** The dropped byte joins its neighbours: the filter `ab` lists the title
      `a<0xC3>b`, in which `ab` does not occur, not even up to case. */
  lemma HighByteJoinsNeighbours()
    ensures MatchesFilter("ab", CacheEntry(true, 0, "a\U{C3}b", []))
    ensures !exists i :: OccursCI("a\U{C3}b", "ab", i)
  {
    var t: Bytes := "a\U{C3}b";
    var f: Bytes := "ab";
    LowerDropsC3();
    assert OccursAt(Lower(t), Lower(f), 0);
    assert AsciiOnly(f);
  }

  lemma LowerDropsC3()
    ensures Lower("a\U{C3}b") == "ab" && Lower("ab") == "ab"
  {
    var t: Bytes := "a\U{C3}b";
    assert t[..|t| - 1] == t[..2] && t[..2][..1] == t[..1] && t[..1][..0] == [];
    assert Lower(t[..1]) == "a";
    assert Lower(t[..2]) == "a";
    var f: Bytes := "ab";
    assert f[..1][..0] == [] && f[..|f| - 1] == "a";
    assert Lower(f[..1]) == "a";
  }

  /** What `AsciiLower` evidently means to compute: `A`-`Z` lowered and every
      other byte kept, as `add_byte` or `add_string(p, 1)` would append it. */
  function LowerKeeping(s: Bytes): Bytes {
    if s == [] then [] else LowerKeeping(s[..|s| - 1]) + [ToLower(s[|s| - 1])]
  }

  lemma {:induction false} LowerKeepingAt(s: Bytes)
    ensures |LowerKeeping(s)| == |s|
    ensures forall i :: 0 <= i < |s| ==> LowerKeeping(s)[i] == ToLower(s[i])
  {
    if s != [] {
      LowerKeepingAt(s[..|s| - 1]);
    }
  }

  /** The filter with `LowerKeeping` in place of `AsciiLower`. */
  function MatchesFilterIntended(filter: Bytes, e: CacheEntry): bool {
    if |filter| == 0 then true
    else if AsciiOnly(filter) then
      Contains(LowerKeeping(e.title), LowerKeeping(filter)) || Contains(LowerKeeping(e.album), LowerKeeping(filter))
    else Contains(e.title, filter) || Contains(e.album, filter)
  }

  /** With the bytes kept, an ASCII-only filter lists exactly the rows whose
      title or album contains it up to ASCII case. */
  lemma MatchesFilterIntendedIff(filter: Bytes, e: CacheEntry)
    requires filter != [] && AsciiOnly(filter)
    ensures MatchesFilterIntended(filter, e) <==>
      (exists i :: OccursCI(e.title, filter, i)) || (exists i :: OccursCI(e.album, filter, i))
  {
    KeepingFindsCI(e.title, filter);
    KeepingFindsCI(e.album, filter);
  }

  lemma KeepingFindsCI(h: Bytes, n: Bytes)
    ensures Contains(LowerKeeping(h), LowerKeeping(n)) <==> exists i :: OccursCI(h, n, i)
  {
    LowerKeepingAt(h);
    LowerKeepingAt(n);
    ContainsIff(LowerKeeping(h), LowerKeeping(n));
    forall i
      ensures OccursAt(LowerKeeping(h), LowerKeeping(n), i) <==> OccursCI(h, n, i)
    {
      if 0 <= i && i + |n| <= |h| {
        assert (forall k :: 0 <= k < |n| ==> LowerKeeping(h)[i + k] == LowerKeeping(n)[k])
          <==> (forall k :: 0 <= k < |n| ==> ToLower(h[i + k]) == ToLower(n[k]));
      }
    }
  }

  /** The cache page's filter state (`m_filter`). */
  class CacheFilter {
    var filter: Bytes

    constructor()
      ensures filter == []
    {
      filter := [];
    }

    /** `trim_ascii_local` on the filter: the same two index loops as
        `trim_ascii`, with the string updated in place. */
    method TrimLocal()
      modifies this`filter
      ensures filter == Text.Trim(old(filter))
    {
      var t := Text.TrimAscii(filter);
      filter := t;
    }

    /** `UpdateFilterFromUI`: the search box text, trimmed. The filter never
        starts or ends with a byte `<= 0x20`, and a box holding only such
        bytes gives the empty filter, which lists every row. */
    method UpdateFilterFromUI(text: Bytes)
      modifies this`filter
      ensures filter == Text.Trim(text)
      ensures filter != [] ==> !IsBlank(filter[0]) && !IsBlank(filter[|filter| - 1])
      ensures (forall k :: 0 <= k < |text| ==> IsBlank(text[k])) ==> filter == []
    {
      filter := text;
      TrimLocal();
      var i, j := Text.TrimIsSlice(text);
    }
  }
}
