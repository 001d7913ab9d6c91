/** Whitespace trimming (`trim_ascii`) and the canonicaliser `sanitize_latin`
    whose output is the only form the cache ever stores. */
module Text {
  import opened Bytes

  /** Drops the leading bytes `<= 0x20`. */
  function TrimLeft(s: Bytes): Bytes {
    if s != [] && IsBlank(s[0]) then TrimLeft(s[1..]) else s
  }

  /** Drops the trailing bytes `<= 0x20`. */
  function TrimRight(s: Bytes): Bytes {
    if s != [] && IsBlank(s[|s| - 1]) then TrimRight(s[..|s| - 1]) else s
  }

  /** What `trim_ascii` leaves of `s`. */
  function Trim(s: Bytes): Bytes {
    TrimRight(TrimLeft(s))
  }

  lemma {:induction false} TrimLeftIsSuffix(s: Bytes) returns (i: nat)
    ensures i <= |s| && TrimLeft(s) == s[i..]
    ensures forall k :: 0 <= k < i ==> IsBlank(s[k])
    ensures i < |s| ==> !IsBlank(s[i])
  {
    if s != [] && IsBlank(s[0]) {
      var i' := TrimLeftIsSuffix(s[1..]);
      i := i' + 1;
      assert s[1..][i'..] == s[i..];
    } else {
      i := 0;
    }
  }

  lemma {:induction false} TrimRightIsPrefix(s: Bytes) returns (j: nat)
    ensures j <= |s| && TrimRight(s) == s[..j]
    ensures forall k :: j <= k < |s| ==> IsBlank(s[k])
    ensures 0 < j ==> !IsBlank(s[j - 1])
  {
    if s != [] && IsBlank(s[|s| - 1]) {
      j := TrimRightIsPrefix(s[..|s| - 1]);
      assert s[..|s| - 1][..j] == s[..j];
    } else {
      j := |s|;
    }
  }

  /** `trim_ascii` removes exactly the leading and the trailing bytes `<= 0x20`
      and keeps the middle as it is. */
  lemma TrimIsSlice(s: Bytes) returns (i: nat, j: nat)
    ensures i <= j <= |s| && Trim(s) == s[i..j]
    ensures forall k :: 0 <= k < i ==> IsBlank(s[k])
    ensures forall k :: j <= k < |s| ==> IsBlank(s[k])
    ensures i < j ==> !IsBlank(s[i]) && !IsBlank(s[j - 1])
  {
    i := TrimLeftIsSuffix(s);
    var j' := TrimRightIsPrefix(s[i..]);
    j := i + j';
    assert s[i..][..j'] == s[i..j];
    assert forall k :: j <= k < |s| ==> s[k] == s[i..][k - i];
  }

  /** Moving `end` back over a byte `<= 0x20` leaves the right trim alone. */
  lemma TrimRightStep(s: Bytes, start: nat, end: nat)
    requires start < end <= |s| && IsBlank(s[end - 1])
    ensures TrimRight(s[start..end - 1]) == TrimRight(s[start..end])
  {
    assert s[start..end][..end - 1 - start] == s[start..end - 1];
  }

  /** The two index loops of `trim_ascii` (latinize.cpp) and of
      `trim_ascii_local` (preferences.cpp): move `start` forward and `end`
      backward over bytes `<= 0x20`, then copy what lies between. */
  method TrimAscii(s: Bytes) returns (r: Bytes)
    ensures r == Trim(s)
  {
    var start, end := 0, |s|;
    while start < end && IsBlank(s[start])
      invariant 0 <= start <= end == |s|
      invariant TrimLeft(s[start..]) == TrimLeft(s)
    {
      assert s[start..][1..] == s[start + 1..];
      start := start + 1;
    }
    assert TrimLeft(s) == s[start..] == s[start..end];
    while end > start && IsBlank(s[end - 1])
      invariant start <= end <= |s|
      invariant TrimRight(s[start..end]) == Trim(s)
    {
      TrimRightStep(s, start, end);
      end := end - 1;
    }
    if start == 0 && end == |s| {
      assert s[start..end] == s;
      return s;
    }
    r := s[start..end];
  }

  // ---------------------------------------------------------------------------
  // sanitize_latin

  predicate IsLetter(b: byte) { IsUpper(b) || IsLower(b) }

  /** Bytes that turn into a single space: space, tab, `-`, `_`, `.`. */
  predicate IsWordBreak(b: byte) { b == ' ' || b == '\t' || b == '-' || b == '_' || b == '.' }

  /** The bytes of the canonical alphabet `[a-z0-9 ]`. */
  predicate IsCanonicalByte(b: byte) { IsLower(b) || IsDigit(b) || b == ' ' }

  /** Sanitised form: only `[a-z0-9 ]`, no space at either end, no two spaces in a row. */
  predicate Canonical(t: Bytes) {
    && (forall i :: 0 <= i < |t| ==> IsCanonicalByte(t[i]))
    && (t != [] ==> t[0] != ' ' && t[|t| - 1] != ' ')
    && (forall i :: 0 <= i < |t| - 1 ==> !(t[i] == ' ' && t[i + 1] == ' '))
  }

  /** State of the `sanitize_latin` loop: the output so far and `prev_space`. */
  datatype Scan = Scan(out: Bytes, prevSpace: bool)

  /** One byte of the `sanitize_latin` loop. */
  function ScanByte(st: Scan, c: byte): Scan {
    if IsLetter(c) then Scan(st.out + [ToLower(c)], false)
    else if IsDigit(c) then Scan(st.out + [c], false)
    else if IsWordBreak(c) then
      if !st.prevSpace && |st.out| > 0 then Scan(st.out + [' '], true) else st
    else st
  }

  /** The loop state after the bytes of `s`. */
  function ScanAll(s: Bytes): Scan {
    if s == [] then Scan([], false) else ScanByte(ScanAll(s[..|s| - 1]), s[|s| - 1])
  }

  /** `sanitize_latin(s)`: the scan, then `trim_ascii`. */
  function Sanitize(s: Bytes): Bytes {
    Trim(ScanAll(s).out)
  }

  /** The loop of `sanitize_latin` (latinize.cpp). */
  method SanitizeLatin(s: Bytes) returns (r: Bytes)
    ensures r == Sanitize(s)
  {
    var out: Bytes := [];
    var prevSpace := false;
    for i := 0 to |s|
      invariant Scan(out, prevSpace) == ScanAll(s[..i])
    {
      assert s[..i + 1][..i] == s[..i];
      var c := s[i];
      if IsLetter(c) {
        out := out + [ToLower(c)];
        prevSpace := false;
      } else if IsDigit(c) {
        out := out + [c];
        prevSpace := false;
      } else if IsWordBreak(c) {
        if !prevSpace && |out| > 0 {
          out := out + [' '];
          prevSpace := true;
        }
      }
    }
    assert s[..|s|] == s;
    r := TrimAscii(out);
  }

  /** What the scan keeps from the input, in order: letters folded to lower case and digits. */
  function Kept(s: Bytes): Bytes {
    if s == [] then []
    else
      var c := s[|s| - 1];
      Kept(s[..|s| - 1]) + KeptByte(c)
  }

  /** `s` with its spaces removed. */
  function NoSpaces(s: Bytes): Bytes {
    if s == [] then [] else NoSpaces(s[..|s| - 1]) + (if s[|s| - 1] == ' ' then [] else [s[|s| - 1]])
  }

  /** A prefix of a canonical string: canonical except that it may end in one space. */
  predicate Growing(t: Bytes) {
    && (forall i :: 0 <= i < |t| ==> IsCanonicalByte(t[i]))
    && (t != [] ==> t[0] != ' ')
    && (forall i :: 0 <= i < |t| - 1 ==> !(t[i] == ' ' && t[i + 1] == ' '))
  }

  /** The invariant the scan keeps: `prev_space` says the output ends in a space,
      the output is a prefix of a canonical string, and its non-space bytes are
      exactly the kept bytes of the input. */
  lemma {:induction false} ScanInvariant(s: Bytes)
    ensures Growing(ScanAll(s).out)
    ensures ScanAll(s).prevSpace <==> (ScanAll(s).out != [] && ScanAll(s).out[|ScanAll(s).out| - 1] == ' ')
    ensures NoSpaces(ScanAll(s).out) == Kept(s)
  {
    if s != [] {
      ScanInvariant(s[..|s| - 1]);
      ScanByteInvariant(ScanAll(s[..|s| - 1]), s[|s| - 1]);
    }
  }

  /** The byte that the scan keeps for `c`, if any. */
  function KeptByte(c: byte): Bytes {
    if IsLetter(c) then [ToLower(c)] else if IsDigit(c) then [c] else []
  }

  /** One byte of the scan keeps the invariant and appends that byte's kept part. */
  lemma ScanByteInvariant(st: Scan, c: byte)
    requires Growing(st.out)
    requires st.prevSpace <==> (st.out != [] && st.out[|st.out| - 1] == ' ')
    ensures Growing(ScanByte(st, c).out)
    ensures ScanByte(st, c).prevSpace <==> (ScanByte(st, c).out != [] && ScanByte(st, c).out[|ScanByte(st, c).out| - 1] == ' ')
    ensures NoSpaces(ScanByte(st, c).out) == NoSpaces(st.out) + KeptByte(c)
  {
    var o := ScanByte(st, c).out;
    if o != st.out {
      assert o[..|o| - 1] == st.out;
    }
  }

  /** Trimming a `Growing` string drops at most its one trailing space. */
  lemma TrimGrowing(t: Bytes)
    requires Growing(t)
    ensures Canonical(Trim(t))
    ensures NoSpaces(Trim(t)) == NoSpaces(t)
  {
    assert TrimLeft(t) == t;
    if t != [] && t[|t| - 1] == ' ' {
      var p := t[..|t| - 1];
      assert forall i :: 0 <= i < |p| ==> p[i] == t[i];
      if p != [] {
        assert p[|p| - 1] == t[|t| - 2];
      }
      assert TrimRight(p) == p;
      assert Trim(t) == p;
    } else {
      assert TrimRight(t) == t;
    }
  }

  /** `sanitize_latin` returns only `[a-z0-9 ]`, never starts or ends with a
      space, never has two spaces in a row, and keeps every letter (lower-cased)
      and digit of its input in order, dropping every other byte. */
  lemma SanitizeCanonical(s: Bytes)
    ensures Canonical(Sanitize(s))
    ensures NoSpaces(Sanitize(s)) == Kept(s)
  {
    ScanInvariant(s);
    TrimGrowing(ScanAll(s).out);
  }

  /** On a `Growing` input the scan copies it and ends with `prev_space` set
      exactly when it ends in a space. */
  lemma {:induction false} ScanCopiesGrowing(t: Bytes)
    requires Growing(t)
    ensures ScanAll(t) == Scan(t, t != [] && t[|t| - 1] == ' ')
  {
    if t != [] {
      var p := t[..|t| - 1];
      assert Growing(p) by {
        assert forall i :: 0 <= i < |p| ==> p[i] == t[i];
      }
      ScanCopiesGrowing(p);
      assert t == p + [t[|t| - 1]];
    }
  }

  /** `sanitize_latin` leaves sanitised text as it is. */
  lemma SanitizeFixesCanonical(t: Bytes)
    requires Canonical(t)
    ensures Sanitize(t) == t
  {
    ScanCopiesGrowing(t);
    assert TrimLeft(t) == t;
    assert TrimRight(t) == t;
  }

  /** `sanitize_latin` is idempotent. */
  lemma SanitizeIdempotent(s: Bytes)
    ensures Sanitize(Sanitize(s)) == Sanitize(s)
  {
    SanitizeCanonical(s);
    SanitizeFixesCanonical(Sanitize(s));
  }

  // ---------------------------------------------------------------------------
  // Where the spaces fall

  /** The scan continued from state `st` over the bytes of `s`. */
  function ScanFrom(st: Scan, s: Bytes): Scan {
    if s == [] then st else ScanByte(ScanFrom(st, s[..|s| - 1]), s[|s| - 1])
  }

  lemma {:induction false} ScanAllFrom(s: Bytes)
    ensures ScanAll(s) == ScanFrom(Scan([], false), s)
  {
    if s != [] {
      ScanAllFrom(s[..|s| - 1]);
    }
  }

  lemma {:induction false} ScanFromAppend(st: Scan, a: Bytes, b: Bytes)
    ensures ScanFrom(st, a + b) == ScanFrom(ScanFrom(st, a), b)
  {
    if b == [] {
      assert a + b == a;
    } else {
      assert (a + b)[..|a + b| - 1] == a + b[..|b| - 1];
      ScanFromAppend(st, a, b[..|b| - 1]);
    }
  }

  /** After a space the scan skips word breaks until the next kept byte, just
      as it does at the start of the output, so it goes on as a fresh scan. */
  lemma {:induction false} ScanAfterSpace(st: Scan, b: Bytes)
    requires st.prevSpace
    ensures var sb := ScanAll(b);
      ScanFrom(st, b) == Scan(st.out + sb.out, if sb.out == [] then true else sb.prevSpace)
  {
    if b != [] {
      ScanAfterSpace(st, b[..|b| - 1]);
      var t := ScanAll(b[..|b| - 1]);
      var c := b[|b| - 1];
      if IsLetter(c) {
        assert st.out + (t.out + [ToLower(c)]) == st.out + t.out + [ToLower(c)];
      } else if IsDigit(c) {
        assert st.out + (t.out + [c]) == st.out + t.out + [c];
      } else if IsWordBreak(c) && !t.prevSpace && |t.out| > 0 {
        assert st.out + (t.out + [' ']) == st.out + t.out + [' '];
      }
    }
  }

  lemma {:induction false} TrimRightAppend(p: Bytes, y: Bytes)
    requires TrimRight(y) != []
    ensures TrimRight(p + y) == p + TrimRight(y)
    decreases |y|
  {
    if IsBlank(y[|y| - 1]) {
      assert (p + y)[..|p + y| - 1] == p + y[..|y| - 1];
      TrimRightAppend(p, y[..|y| - 1]);
    }
  }

  /** A byte that is neither a letter, a digit nor a word break, a byte
      `>= 0x80` among them, is dropped without a trace: the bytes on either
      side of it meet. */
  lemma SanitizeDropsOther(a: Bytes, c: byte, b: Bytes)
    requires !IsLetter(c) && !IsDigit(c) && !IsWordBreak(c)
    ensures Sanitize(a + [c] + b) == Sanitize(a + b)
  {
    var init := Scan([], false);
    ScanAllFrom(a + [c] + b);
    ScanAllFrom(a + b);
    ScanFromAppend(init, a + [c], b);
    ScanFromAppend(init, a, b);
    assert (a + [c])[..|a + [c]| - 1] == a;
  }

  /** Trimming a `Growing` string drops just its trailing space, if any. */
  lemma GrowingTrimShape(t: Bytes)
    requires Growing(t)
    ensures Trim(t) == if t != [] && t[|t| - 1] == ' ' then t[..|t| - 1] else t
  {
    assert TrimLeft(t) == t;
    if t != [] && t[|t| - 1] == ' ' {
      var p := t[..|t| - 1];
      if p != [] {
        assert p[|p| - 1] == t[|t| - 2] != ' ';
      }
      assert TrimRight(p) == p;
    } else {
      assert TrimRight(t) == t;
    }
  }

  /** Text that keeps something sanitises to a non-empty string that starts
      with a kept byte. */
  lemma SanitizeKeeps(a: Bytes)
    requires Kept(a) != []
    ensures Sanitize(a) != [] && !IsBlank(Sanitize(a)[0])
  {
    SanitizeCanonical(a);
    assert IsCanonicalByte(Sanitize(a)[0]);
  }

  /** The scan of text that keeps something: its output is not empty,
      `prev_space` says it ends in a space, and trimming drops just that space. */
  lemma ScanKeeps(a: Bytes)
    requires Kept(a) != []
    ensures var o := ScanAll(a).out;
      && o != [] && (ScanAll(a).prevSpace <==> o[|o| - 1] == ' ')
      && Sanitize(a) == if o[|o| - 1] == ' ' then o[..|o| - 1] else o
  {
    ScanInvariant(a);
    GrowingTrimShape(ScanAll(a).out);
  }

  /** A scan that kept something, followed by a word break: the output is the
      sanitised text and one space, and `prev_space` is set. */
  lemma ScanThroughBreak(a: Bytes, w: byte)
    requires IsWordBreak(w) && Kept(a) != []
    ensures ScanAll(a + [w]) == Scan(Sanitize(a) + [' '], true)
  {
    var sa := ScanAll(a);
    assert ScanAll(a + [w]) == ScanByte(sa, w) by {
      assert (a + [w])[..|a + [w]| - 1] == a;
    }
    ScanKeeps(a);
    if sa.prevSpace {
      assert sa.out == sa.out[..|sa.out| - 1] + [' '];
    }
  }

  /** Trimming `x`, a space and a `Growing` tail that keeps something trims
      the tail only. */
  lemma TrimJoin(x: Bytes, t: Bytes)
    requires x != [] && !IsBlank(x[0]) && Growing(t) && TrimRight(t) != []
    ensures Trim(x + [' '] + t) == x + [' '] + Trim(t)
  {
    assert TrimLeft(t) == t;
    assert TrimLeft(x + [' '] + t) == x + [' '] + t;
    TrimRightAppend(x + [' '], t);
  }

  /** Space, tab, `-`, `_` and `.` separate words: between two parts that
      keep something, a word break, and any run of them around it, becomes
      exactly one space. */
  lemma SanitizeWordBreak(a: Bytes, w: byte, b: Bytes)
    requires IsWordBreak(w) && Kept(a) != [] && Kept(b) != []
    ensures Sanitize(a + [w] + b) == Sanitize(a) + [' '] + Sanitize(b)
  {
    var init := Scan([], false);
    var sb := ScanAll(b);
    ScanThroughBreak(a, w);
    SanitizeKeeps(a);
    ScanAllFrom(a + [w] + b);
    ScanAllFrom(a + [w]);
    ScanFromAppend(init, a + [w], b);
    ScanAfterSpace(ScanAll(a + [w]), b);
    ScanInvariant(b);
    SanitizeCanonical(b);
    assert sb.out != [] && Trim(sb.out) != [];
    assert ScanAll(a + [w] + b).out == Sanitize(a) + [' '] + sb.out;
    assert TrimRight(sb.out) != [] by {
      assert TrimLeft(sb.out) == sb.out;
    }
    TrimJoin(Sanitize(a), sb.out);
  }
  /** Word breaks before anything is kept write nothing. */
  lemma {:induction false} BreaksWriteNothing(ws: Bytes)
    requires forall i :: 0 <= i < |ws| ==> IsWordBreak(ws[i])
    ensures ScanAll(ws) == Scan([], false)
  {
    if ws != [] {
      BreaksWriteNothing(ws[..|ws| - 1]);
    }
  }

  /** A run of word breaks at the start of the input leaves no trace. */
  lemma LeadingBreaks(ws: Bytes, x: Bytes)
    requires forall i :: 0 <= i < |ws| ==> IsWordBreak(ws[i])
    ensures Sanitize(ws + x) == Sanitize(x)
  {
    BreaksWriteNothing(ws);
    ScanAllFrom(ws + x);
    ScanAllFrom(ws);
    ScanAllFrom(x);
    ScanFromAppend(Scan([], false), ws, x);
  }

  /** A whole run of word breaks between two parts that keep something
      becomes exactly one space. */
  lemma SanitizeBreakRun(a: Bytes, ws: Bytes, b: Bytes)
    requires ws != [] && forall i :: 0 <= i < |ws| ==> IsWordBreak(ws[i])
    requires Kept(a) != [] && Kept(b) != []
    ensures Sanitize(a + ws + b) == Sanitize(a) + [' '] + Sanitize(b)
  {
    var w, rest := ws[0], ws[1..] + b;
    assert IsWordBreak(w) && Sanitize(rest) == Sanitize(b) && Kept(rest) == Kept(b) by {
      LeadingBreaks(ws[1..], b);
      SameSanitizeSameKept(rest, b);
    }
    assert a + ws + b == a + [w] + rest by {
      assert ws == [w] + ws[1..];
    }
    SanitizeWordBreak(a, w, rest);
  }

  /** Inputs that sanitise alike keep the same letters and digits. */
  lemma SameSanitizeSameKept(x: Bytes, y: Bytes)
    requires Sanitize(x) == Sanitize(y)
    ensures Kept(x) == Kept(y)
  {
    SanitizeCanonical(x);
    SanitizeCanonical(y);
  }
}
