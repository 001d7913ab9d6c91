/** The lenient JSON string scanner and its helpers: `parse_json_string`
    (escapes of section 7 of RFC 8259), `json_escape`,
    `json_find_string_value` and `extract_assistant_content`. */
module Json {
  import opened Bytes
  import opened Utf8

  // ---------------------------------------------------------------------------
  // parse_json_string

  predicate IsHexDigit(b: byte) { '0' <= b <= '9' || 'a' <= b <= 'f' || 'A' <= b <= 'F' }

  function HexValue(b: byte): (v: nat)
    requires IsHexDigit(b)
    ensures v < 16
  {
    if '0' <= b <= '9' then b as int - '0' as int
    else if 'a' <= b <= 'f' then b as int - 'a' as int + 10
    else b as int - 'A' as int + 10
  }

  /** The `n` bytes from index `i` are hex digits. */
  predicate HexDigitsAt(s: Bytes, i: nat, n: nat)
    requires i + n <= |s|
  {
    n == 0 || (HexDigitsAt(s, i, n - 1) && IsHexDigit(s[i + n - 1]))
  }

  /** The number the `n` hex digits from index `i` spell, most significant
      first (`cp <<= 4; cp |= digit`). */
  function HexValueAt(s: Bytes, i: nat, n: nat): (v: nat)
    requires i + n <= |s| && HexDigitsAt(s, i, n)
    ensures v < Pow16(n)
  {
    if n == 0 then 0 else HexValueAt(s, i, n - 1) * 16 + HexValue(s[i + n - 1])
  }

  function Pow16(n: nat): (p: nat)
    ensures p >= 1
  {
    if n == 0 then 1 else 16 * Pow16(n - 1)
  }

  /** The bytes `\uXXXX` adds: the UTF-8 form of the code point. A NUL byte
      ends a C string, so `\u0000` adds nothing. */
  function CodePointBytes(cp: uint32): Bytes {
    if cp == 0 then [] else EncodeUtf8(cp)
  }

  /** What a one-letter escape adds with `add_char`: `\b`, `\f`, `\n`, `\r`,
      `\t` add control bytes, every other letter below 0x80 (`"`, `\\`, `/`
      among them) adds itself, and an escaped byte `>= 0x80` adds nothing. */
  function Unescape(e: byte): (r: Bytes)
    ensures |r| <= 1 && (|r| == 1 <==> e < '\U{80}')
    ensures e in "bfnrt" ==> r[0] < ' '
    ensures e !in "bfnrt" ==> r == AddChar(e)
  {
    AddChar(if e == 'b' then '\U{8}'
            else if e == 'f' then '\U{C}'
            else if e == 'n' then '\n'
            else if e == 'r' then '\r'
            else if e == 't' then '\t'
            else e)
  }

  /** The escape whose letter is at index `e` of `s` (just after a backslash):
      the bytes it adds and the index after it. */
  function EscapeAt(s: Bytes, e: nat): (r: Option<(Bytes, nat)>)
    ensures r.Some? ==> e < r.value.1 <= |s|
  {
    if e >= |s| then None  // a backslash just before the terminator: the source reads past it
    else if s[e] == 'u' then
      if e + 5 <= |s| && HexDigitsAt(s, e + 1, 4) then
        assert Pow16(4) == 0x10000;
        Some((CodePointBytes(HexValueAt(s, e + 1, 4)), e + 5))
      else None
    else Some((Unescape(s[e]), e + 1))
  }

  /** One pass of the loop at index `q`, a byte other than the closing quote:
      the bytes it adds and the index it moves to. */
  function PieceAt(s: Bytes, q: nat): (r: Option<(Bytes, nat)>)
    requires q < |s| && s[q] != '"'
    ensures r.Some? ==> q < r.value.1 <= |s|
  {
    if s[q] == '\\' then EscapeAt(s, q + 1) else Some((AddChar(s[q]), q + 1))
  }

  function Prepend(piece: Bytes, r: Option<(Bytes, nat)>): Option<(Bytes, nat)> {
    match r
    case None => None
    case Some((v, e)) => Some((piece + v, e))
  }

  lemma PrependNil(r: Option<(Bytes, nat)>)
    ensures Prepend([], r) == r
  {
    if r.Some? {
      assert [] + r.value.0 == r.value.0;
    }
  }

  lemma PrependPrepend(a: Bytes, b: Bytes, r: Option<(Bytes, nat)>)
    ensures Prepend(a, Prepend(b, r)) == Prepend(a + b, r)
  {
    if r.Some? {
      assert a + (b + r.value.0) == (a + b) + r.value.0;
    }
  }

  /** The rest of a string literal from index `q`: the decoded value and the
      index just past the closing quote. */
  function BodyFrom(s: Bytes, q: nat): (r: Option<(Bytes, nat)>)
    requires q <= |s|
    ensures r.Some? ==> q < r.value.1 <= |s| && s[r.value.1 - 1] == '"'
    decreases |s| - q
  {
    if q == |s| then None
    else if s[q] == '"' then Some(([], q + 1))
    else
      match PieceAt(s, q)
      case None => None
      case Some((piece, next)) => Prepend(piece, BodyFrom(s, next))
  }

  /** Unfolds `BodyFrom` once at a byte other than the closing quote. */
  lemma BodyFromStep(s: Bytes, q: nat, piece: Bytes, next: nat)
    requires q < |s| && s[q] != '"' && PieceAt(s, q) == Some((piece, next))
    ensures BodyFrom(s, q) == Prepend(piece, BodyFrom(s, next))
  {
  }

  /** One loop pass followed by the rest of the literal. */
  lemma BodyFromCons(s: Bytes, q: nat, piece: Bytes, next: nat, w: Bytes, end: nat)
    requires q < |s| && s[q] != '"' && PieceAt(s, q) == Some((piece, next))
    requires BodyFrom(s, next) == Some((w, end))
    ensures BodyFrom(s, q) == Some((piece + w, end))
  {
    BodyFromStep(s, q, piece, next);
  }

  /** `parse_json_string(p, out)` with `p` at index `i` of `s`: the value and
      the index just past the closing quote. */
  function JsonString(s: Bytes, i: nat): (r: Option<(Bytes, nat)>)
    ensures r.Some? ==> i < |s| && s[i] == '"' && i + 1 < r.value.1 <= |s| && s[r.value.1 - 1] == '"'
  {
    if i < |s| && s[i] == '"' then BodyFrom(s, i + 1) else None
  }

  /** The `\u` branch: four hex digits starting at `q`. */
  method ReadHex4(s: Bytes, q: nat) returns (r: Option<uint32>)
    requires q <= |s|
    ensures r.Some? <==> q + 4 <= |s| && HexDigitsAt(s, q, 4)
    ensures r.Some? ==> r.value == HexValueAt(s, q, 4)
  {
    var cp := 0;
    var k := 0;
    while k < 4
      invariant 0 <= k <= 4 && q + k <= |s|
      invariant HexDigitsAt(s, q, k) && cp == HexValueAt(s, q, k)
    {
      if q + k == |s| {
        return None;
      }
      if !IsHexDigit(s[q + k]) {
        assert !(q + 4 <= |s| && HexDigitsAt(s, q, 4)) by {
          if q + 4 <= |s| && HexDigitsAt(s, q, 4) {
            HexDigitsPrefix(s, q, k + 1, 4);
          }
        }
        return None;
      }
      cp := cp * 16 + HexValue(s[q + k]);
      k := k + 1;
    }
    assert Pow16(4) == 0x10000;
    r := Some(cp);
  }

  lemma {:induction false} HexDigitsPrefix(s: Bytes, i: nat, m: nat, n: nat)
    requires m <= n && i + n <= |s| && HexDigitsAt(s, i, n)
    ensures HexDigitsAt(s, i, m)
    decreases n
  {
    if m < n {
      HexDigitsPrefix(s, i, m, n - 1);
    }
  }

  /** The `switch` on the byte at index `e`, after a backslash. */
  method ReadEscape(s: Bytes, e: nat) returns (r: Option<(Bytes, nat)>)
    ensures r == EscapeAt(s, e)
  {
    if e >= |s| {
      return None;
    }
    var c := s[e];
    if c == '"' { r := Some((['"'], e + 1)); }
    else if c == '\\' { r := Some((['\\'], e + 1)); }
    else if c == '/' { r := Some((['/'], e + 1)); }
    else if c == 'b' { r := Some((['\U{8}'], e + 1)); }
    else if c == 'f' { r := Some((['\U{C}'], e + 1)); }
    else if c == 'n' { r := Some((['\n'], e + 1)); }
    else if c == 'r' { r := Some((['\r'], e + 1)); }
    else if c == 't' { r := Some((['\t'], e + 1)); }
    else if c == 'u' {
      var cp := ReadHex4(s, e + 1);
      if cp.None? {
        return None;
      }
      r := Some((CodePointBytes(cp.value), e + 5));
    } else {
      r := Some((AddChar(c), e + 1));
    }
  }

  /** `parse_json_string` (latinize.cpp). */
  method ParseJsonString(s: Bytes, p: nat) returns (r: Option<(Bytes, nat)>)
    ensures r == JsonString(s, p)
  {
    if !(p < |s| && s[p] == '"') {
      return None;
    }
    var q := p + 1;
    var out: Bytes := [];
    PrependNil(BodyFrom(s, q));
    while q < |s|
      invariant p + 1 <= q <= |s|
      invariant BodyFrom(s, p + 1) == Prepend(out, BodyFrom(s, q))
      decreases |s| - q
    {
      if s[q] == '"' {
        assert out + [] == out;
        return Some((out, q + 1));
      }
      var step: Option<(Bytes, nat)>;
      if s[q] == '\\' {
        step := ReadEscape(s, q + 1);
      } else {
        step := Some((AddChar(s[q]), q + 1));
      }
      if step.None? {
        return None;
      }
      PrependPrepend(out, step.value.0, BodyFrom(s, step.value.1));
      out, q := out + step.value.0, step.value.1;
    }
    return None;
  }

  // ---------------------------------------------------------------------------
  // json_escape

  /** What `json_escape` writes for one byte. */
  function EscapeByte(b: byte): Bytes {
    if b == '\\' then ['\\', '\\']
    else if b == '"' then ['\\', '"']
    else if b == '\n' then ['\\', 'n']
    else if b == '\r' then ['\\', 'r']
    else if b == '\t' then ['\\', 't']
    else if b < ' ' then [' ']
    else [b]
  }

  /** What `json_escape` writes for a whole string. */
  function Escaped(s: Bytes): Bytes {
    if s == [] then [] else EscapeByte(s[0]) + Escaped(s[1..])
  }

  lemma {:induction false} EscapedSnoc(s: Bytes, b: byte)
    ensures Escaped(s + [b]) == Escaped(s) + EscapeByte(b)
    decreases |s|
  {
    if s == [] {
      assert [] + [b] == [b];
      assert [b][1..] == [];
    } else {
      assert (s + [b])[1..] == s[1..] + [b];
      EscapedSnoc(s[1..], b);
    }
  }

  /** The loop of `json_escape` (latinize.cpp). */
  method JsonEscape(s: Bytes) returns (r: Bytes)
    ensures r == Escaped(s)
  {
    r := [];
    for i := 0 to |s|
      invariant r == Escaped(s[..i])
    {
      assert s[..i + 1] == s[..i] + [s[i]];
      EscapedSnoc(s[..i], s[i]);
      var b := s[i];
      if b == '\\' { r := r + ['\\', '\\']; }
      else if b == '"' { r := r + ['\\', '"']; }
      else if b == '\n' { r := r + ['\\', 'n']; }
      else if b == '\r' { r := r + ['\\', 'r']; }
      else if b == '\t' { r := r + ['\\', 't']; }
      else if b < ' ' { r := r + [' ']; }
      else { r := r + [b]; }
    }
    assert s[..|s|] == s;
  }

  /** `json_escape` output holds no byte below 0x20. */
  lemma {:induction false} EscapedHasNoControl(s: Bytes)
    ensures forall k :: 0 <= k < |Escaped(s)| ==> Escaped(s)[k] >= ' '
    decreases |s|
  {
    if s != [] {
      EscapedHasNoControl(s[1..]);
    }
  }

  /** The bytes that `json_escape` and `parse_json_string` carry one-to-one:
      the printable ASCII bytes 0x20 to 0x7F, and `\n`, `\r`, `\t`. A control
      byte is written as a space, and a byte `>= 0x80` is written as it is but
      dropped when read. */
  predicate Escapable(b: byte) { ' ' <= b < '\U{80}' || b == '\n' || b == '\r' || b == '\t' }

  /** A string made of `Escapable` bytes only. */
  predicate Plain(v: Bytes) {
    v == [] || (Escapable(v[0]) && Plain(v[1..]))
  }

  lemma {:induction false} PlainIff(v: Bytes)
    ensures Plain(v) <==> forall k :: 0 <= k < |v| ==> Escapable(v[k])
    decreases |v|
  {
    if v != [] {
      PlainIff(v[1..]);
      assert forall k :: 1 <= k < |v| ==> v[k] == v[1..][k - 1];
    }
  }

  /** `s` holds `e` from index `q` on. */
  predicate HoldsAt(s: Bytes, q: nat, e: Bytes) {
    q + |e| <= |s| && forall k :: 0 <= k < |e| ==> s[q + k] == e[k]
  }

  lemma HoldsAtSplit(s: Bytes, q: nat, a: Bytes, b: Bytes)
    requires HoldsAt(s, q, a + b)
    ensures HoldsAt(s, q, a) && HoldsAt(s, q + |a|, b)
  {
    forall k | 0 <= k < |a|
      ensures s[q + k] == a[k]
    {
      assert (a + b)[k] == a[k];
    }
    forall k | 0 <= k < |b|
      ensures s[q + |a| + k] == b[k]
    {
      assert (a + b)[|a| + k] == b[k];
    }
  }

  /** `parse_json_string` reads back, in one pass of its loop, what `json_escape` wrote for `b`. */
  lemma EscapeByteDecodes(s: Bytes, q: nat, b: byte)
    requires Escapable(b) && HoldsAt(s, q, EscapeByte(b))
    ensures s[q] != '"' && PieceAt(s, q) == Some(([b], q + |EscapeByte(b)|))
  {
    assert s[q] == EscapeByte(b)[0];
    if |EscapeByte(b)| == 2 {
      assert s[q + 1] == EscapeByte(b)[1];
    }
  }

  /** A byte `>= 0x80` in a string literal is dropped, whether it stands alone
      or after a backslash, although `json_escape` writes it as it is: the round
      trip fails for text that is not ASCII. */
  lemma HighByteDropped()
    ensures Escaped("\U{C3}") == "\U{C3}"
    ensures JsonString("\"\U{C3}\"", 0) == Some(([], 3))
    ensures JsonString("\"\\\U{C3}\"", 0) == Some(([], 4))
  {
    var s1: Bytes := "\"\U{C3}\"";
    assert s1[1] == '\U{C3}' && s1[2] == '"';
    assert BodyFrom(s1, 2) == Some(([], 3));
    BodyFromCons(s1, 1, [], 2, [], 3);
    var nil: Bytes := [];
    assert nil + nil == nil;
    JsonStringOpen(s1, 0, [], 3);
    var s2: Bytes := "\"\\\U{C3}\"";
    assert s2[1] == '\\' && s2[2] == '\U{C3}' && s2[3] == '"';
    assert BodyFrom(s2, 3) == Some(([], 4));
    BodyFromCons(s2, 1, [], 3, [], 4);
    JsonStringOpen(s2, 0, [], 4);
  }

  /** `parse_json_string` reads back what `json_escape` wrote, up to the
      closing quote, for any string of ASCII bytes whose only control bytes are
      `\n`, `\r` and `\t`. */
  lemma {:induction false} EscapeRoundTrip(s: Bytes, q: nat, v: Bytes, end: nat)
    requires Plain(v) && HoldsAt(s, q, Escaped(v)) && end == q + |Escaped(v)| + 1 && end <= |s| && s[end - 1] == '"'
    ensures BodyFrom(s, q) == Some((v, end))
    decreases |v|
  {
    if v == [] {
      assert s[q] == '"';
    } else {
      var next := RoundTripSplit(s, q, v);
      EscapeRoundTrip(s, next, v[1..], end);
      RoundTripJoin(s, q, v, next, end);
    }
  }

  /** The front of an escaped string decodes to its first byte, and the
      escaped rest starts where that byte's escape ends. */
  lemma RoundTripSplit(s: Bytes, q: nat, v: Bytes) returns (next: nat)
    requires v != [] && Plain(v) && HoldsAt(s, q, Escaped(v))
    ensures next == q + |EscapeByte(v[0])| && next + |Escaped(v[1..])| == q + |Escaped(v)|
    ensures Plain(v[1..]) && HoldsAt(s, next, Escaped(v[1..]))
    ensures s[q] != '"' && PieceAt(s, q) == Some(([v[0]], next))
  {
    var eb, et := EscapeByte(v[0]), Escaped(v[1..]);
    assert HoldsAt(s, q, eb) && HoldsAt(s, q + |eb|, et) by {
      assert Escaped(v) == eb + et;
      HoldsAtSplit(s, q, eb, et);
    }
    EscapeByteDecodes(s, q, v[0]);
    next := q + |eb|;
  }

  /** The first byte joined to the rest that reads back. */
  lemma RoundTripJoin(s: Bytes, q: nat, v: Bytes, next: nat, end: nat)
    requires v != [] && q < |s| && s[q] != '"' && PieceAt(s, q) == Some(([v[0]], next))
    requires BodyFrom(s, next) == Some((v[1..], end))
    ensures BodyFrom(s, q) == Some((v, end))
  {
    BodyFromCons(s, q, [v[0]], next, v[1..], end);
    assert [v[0]] + v[1..] == v;
  }

  /** Wherever `"<escaped v>"` sits in a buffer, `parse_json_string` at its
      opening quote reads back `v` and stops just past the closing quote. */
  lemma EscapedStringAt(s: Bytes, q: nat, v: Bytes)
    requires forall k :: 0 <= k < |v| ==> Escapable(v[k])
    requires HoldsAt(s, q, ['"'] + Escaped(v) + ['"'])
    ensures JsonString(s, q) == Some((v, q + |Escaped(v)| + 2))
  {
    HoldsAtSplit(s, q, ['"'] + Escaped(v), ['"']);
    HoldsAtSplit(s, q, ['"'], Escaped(v));
    assert s[q] == '"' && s[q + 1 + |Escaped(v)|] == '"' by {
      assert s[q + 0] == ['"'][0];
      assert s[q + |['"'] + Escaped(v)| + 0] == ['"'][0];
    }
    PlainIff(v);
    QuotedRoundTrip(s, q, v);
  }

  /** The escaped bytes of `v` between two quotes read back as `v`. */
  lemma QuotedRoundTrip(s: Bytes, q: nat, v: Bytes)
    requires Plain(v) && HoldsAt(s, q + 1, Escaped(v))
    requires q + |Escaped(v)| + 1 < |s| && s[q] == '"' && s[q + 1 + |Escaped(v)|] == '"'
    ensures JsonString(s, q) == Some((v, q + |Escaped(v)| + 2))
  {
    var end: nat := q + |Escaped(v)| + 2;
    EscapeRoundTrip(s, q + 1, v, end);
    JsonStringOpen(s, q, v, end);
  }

  lemma JsonStringOpen(s: Bytes, q: nat, v: Bytes, end: nat)
    requires q < |s| && s[q] == '"' && BodyFrom(s, q + 1) == Some((v, end))
    ensures JsonString(s, q) == Some((v, end))
  {
  }

  /** The same round trip through `parse_json_string` when the escaped string
      sits between quotes at index `|pre|`. */
  lemma EscapeRoundTripAt(pre: Bytes, v: Bytes, rest: Bytes)
    requires forall k :: 0 <= k < |v| ==> Escapable(v[k])
    ensures JsonString(pre + ['"'] + Escaped(v) + ['"'] + rest, |pre|)
         == Some((v, |pre| + |Escaped(v)| + 2))
  {
    var s := pre + ['"'] + Escaped(v) + ['"'] + rest;
    QuotedLayout(pre, Escaped(v), rest);
    PlainIff(v);
    QuotedRoundTrip(s, |pre|, v);
  }

  lemma QuotedLayout(pre: Bytes, e: Bytes, rest: Bytes)
    ensures var s := pre + ['"'] + e + ['"'] + rest;
      |pre| + |e| + 1 < |s| && HoldsAt(s, |pre| + 1, e) && s[|pre|] == '"' && s[|pre| + 1 + |e|] == '"'
  {
  }

  // ---------------------------------------------------------------------------
  // The string reader as evidently intended: every byte is kept

  /** The escape letters as `parse_json_string` evidently means them: `b f n r t`
      give their control bytes and every other byte stands for itself, a byte
      `>= 0x80` included. */
  function UnescapeKeeping(e: byte): (r: Bytes)
    ensures |r| == 1 && (e !in "bfnrt" ==> r == [e]) && (e in "bfnrt" ==> r[0] < ' ')
  {
    [if e == 'b' then '\U{8}'
     else if e == 'f' then '\U{C}'
     else if e == 'n' then '\n'
     else if e == 'r' then '\r'
     else if e == 't' then '\t'
     else e]
  }

  /** `EscapeAt` with the escape letters of `UnescapeKeeping`. */
  function EscapeKeepingAt(s: Bytes, e: nat): (r: Option<(Bytes, nat)>)
    ensures r.Some? ==> e < r.value.1 <= |s|
  {
    if e >= |s| then None
    else if s[e] == 'u' then
      if e + 5 <= |s| && HexDigitsAt(s, e + 1, 4) then
        assert Pow16(4) == 0x10000;
        Some((CodePointBytes(HexValueAt(s, e + 1, 4)), e + 5))
      else None
    else Some((UnescapeKeeping(s[e]), e + 1))
  }

  /** `PieceAt` keeping a raw byte `>= 0x80`. */
  function PieceKeepingAt(s: Bytes, q: nat): (r: Option<(Bytes, nat)>)
    requires q < |s| && s[q] != '"'
    ensures r.Some? ==> q < r.value.1 <= |s|
  {
    if s[q] == '\\' then EscapeKeepingAt(s, q + 1) else Some(([s[q]], q + 1))
  }

  /** `BodyFrom` with the pieces of `PieceKeepingAt`. */
  function BodyKeepingFrom(s: Bytes, q: nat): (r: Option<(Bytes, nat)>)
    requires q <= |s|
    ensures r.Some? ==> q < r.value.1 <= |s| && s[r.value.1 - 1] == '"'
    decreases |s| - q
  {
    if q == |s| then None
    else if s[q] == '"' then Some(([], q + 1))
    else
      match PieceKeepingAt(s, q)
      case None => None
      case Some((piece, next)) => Prepend(piece, BodyKeepingFrom(s, next))
  }

  /** `parse_json_string` as evidently intended. */
  function JsonStringKeeping(s: Bytes, i: nat): (r: Option<(Bytes, nat)>)
    ensures r.Some? ==> i < |s| && s[i] == '"' && i + 1 < r.value.1 <= |s| && s[r.value.1 - 1] == '"'
  {
    if i < |s| && s[i] == '"' then BodyKeepingFrom(s, i + 1) else None
  }

  /** The bytes `json_escape` writes so that the intended reader gets them
      back: every byte except the control bytes other than `\n`, `\r`, `\t`. */
  predicate KeptByEscape(b: byte) { ' ' <= b || b == '\n' || b == '\r' || b == '\t' }

  lemma EscapeByteDecodesKeeping(s: Bytes, q: nat, b: byte)
    requires KeptByEscape(b) && HoldsAt(s, q, EscapeByte(b))
    ensures s[q] != '"' && PieceKeepingAt(s, q) == Some(([b], q + |EscapeByte(b)|))
  {
    assert s[q] == EscapeByte(b)[0];
    if |EscapeByte(b)| == 2 {
      assert s[q + 1] == EscapeByte(b)[1];
    }
  }

  lemma BodyKeepingCons(s: Bytes, q: nat, piece: Bytes, next: nat, w: Bytes, end: nat)
    requires q < |s| && s[q] != '"' && PieceKeepingAt(s, q) == Some((piece, next))
    requires BodyKeepingFrom(s, next) == Some((w, end))
    ensures BodyKeepingFrom(s, q) == Some((piece + w, end))
  {
  }

  /** The intended reader reads back what `json_escape` wrote, up to the
      closing quote, for any string whose only control bytes are `\n`, `\r`
      and `\t`, bytes `>= 0x80` included. */
  lemma {:induction false} EscapeRoundTripKeeping(s: Bytes, q: nat, v: Bytes, end: nat)
    requires forall k :: 0 <= k < |v| ==> KeptByEscape(v[k])
    requires HoldsAt(s, q, Escaped(v)) && end == q + |Escaped(v)| + 1 && end <= |s| && s[end - 1] == '"'
    ensures BodyKeepingFrom(s, q) == Some((v, end))
    decreases |v|
  {
    if v == [] {
      assert s[q] == '"';
    } else {
      var next := KeepingSplit(s, q, v);
      EscapeRoundTripKeeping(s, next, v[1..], end);
      BodyKeepingCons(s, q, [v[0]], next, v[1..], end);
      assert [v[0]] + v[1..] == v;
    }
  }

  /** The front of an escaped string decodes to its first byte under the
      intended reader, and the escaped rest starts where that byte's escape ends. */
  lemma KeepingSplit(s: Bytes, q: nat, v: Bytes) returns (next: nat)
    requires v != [] && (forall k :: 0 <= k < |v| ==> KeptByEscape(v[k])) && HoldsAt(s, q, Escaped(v))
    ensures next + |Escaped(v[1..])| == q + |Escaped(v)|
    ensures (forall k :: 0 <= k < |v[1..]| ==> KeptByEscape(v[1..][k])) && HoldsAt(s, next, Escaped(v[1..]))
    ensures s[q] != '"' && PieceKeepingAt(s, q) == Some(([v[0]], next))
  {
    var eb, et := EscapeByte(v[0]), Escaped(v[1..]);
    assert HoldsAt(s, q, eb) && HoldsAt(s, q + |eb|, et) by {
      assert Escaped(v) == eb + et;
      HoldsAtSplit(s, q, eb, et);
    }
    EscapeByteDecodesKeeping(s, q, v[0]);
    assert forall k :: 0 <= k < |v[1..]| ==> v[1..][k] == v[k + 1];
    next := q + |eb|;
  }

  /** Wherever `"<escaped v>"` sits in a buffer, the intended reader at its
      opening quote reads back `v`, bytes `>= 0x80` included, and stops just
      past the closing quote. */
  lemma EscapedStringKeepingAt(s: Bytes, q: nat, v: Bytes)
    requires forall k :: 0 <= k < |v| ==> KeptByEscape(v[k])
    requires HoldsAt(s, q, ['"'] + Escaped(v) + ['"'])
    ensures JsonStringKeeping(s, q) == Some((v, q + |Escaped(v)| + 2))
  {
    assert HoldsAt(s, q + 1, Escaped(v)) && s[q] == '"' && s[q + 1 + |Escaped(v)|] == '"' by {
      HoldsAtSplit(s, q, ['"'] + Escaped(v), ['"']);
      HoldsAtSplit(s, q, ['"'], Escaped(v));
      assert s[q + 0] == ['"'][0];
      assert s[q + |['"'] + Escaped(v)| + 0] == ['"'][0];
    }
    QuotedKeeping(s, q, v);
  }

  /** The escaped bytes of `v` between two quotes read back as `v` under the intended reader. */
  lemma QuotedKeeping(s: Bytes, q: nat, v: Bytes)
    requires forall k :: 0 <= k < |v| ==> KeptByEscape(v[k])
    requires HoldsAt(s, q + 1, Escaped(v)) && q + |Escaped(v)| + 1 < |s| && s[q] == '"' && s[q + 1 + |Escaped(v)|] == '"'
    ensures JsonStringKeeping(s, q) == Some((v, q + |Escaped(v)| + 2))
  {
    EscapeRoundTripKeeping(s, q + 1, v, q + |Escaped(v)| + 2);
  }

  // ---------------------------------------------------------------------------
  // json_find_string_value and extract_assistant_content

  /** `while (*p && *p != ':') ++p`. */
  function ColonFrom(s: Bytes, i: nat): (k: nat)
    requires i <= |s|
    ensures i <= k <= |s| && (k < |s| ==> s[k] == ':')
    decreases |s| - i
  {
    if i == |s| || s[i] == ':' then i else ColonFrom(s, i + 1)
  }

  predicate IsJsonSpace(b: byte) { b == ' ' || b == '\t' || b == '\r' || b == '\n' }

  /** The whitespace skip after the colon. */
  function SkipJsonSpace(s: Bytes, i: nat): (k: nat)
    requires i <= |s|
    ensures i <= k <= |s|
    decreases |s| - i
  {
    if i < |s| && IsJsonSpace(s[i]) then SkipJsonSpace(s, i + 1) else i
  }

  /** What both lookups find after a key: no colon before the end, a string
      value after the colon, or no value, with the index the blank skip
      stopped at. */
  datatype Probe = NoColon | Value(value: Bytes) | NoValue(at: nat)

  /** The colon scan, the blank skip and the string parse that follow a key
      ending at index `k`. */
  function ProbeAt(json: Bytes, k: nat): (r: Probe)
    requires k <= |json|
    ensures r.NoValue? ==> k < r.at <= |json|
  {
    var c := ColonFrom(json, k);
    if c == |json| then NoColon
    else
      var v := SkipJsonSpace(json, c + 1);
      if v < |json| && json[v] == '"' && JsonString(json, v).Some? then Value(JsonString(json, v).value.0)
      else NoValue(v)
  }

  /** The loop of `json_find_string_value` from `search`. */
  function FindFrom(json: Bytes, pattern: Bytes, search: nat): Option<Bytes>
    requires search <= |json| && |pattern| > 0
    decreases |json| - search
  {
    match IndexOf(json, pattern, search)
    case None => None
    case Some(h) =>
      match ProbeAt(json, h + |pattern|)
      case NoColon => None  // `search` restarts at the terminator, where nothing more is found
      case Value(x) => Some(x)
      case NoValue(v) =>
        if v == |json| then None  // `search = p + 1` would point past the terminator
        else FindFrom(json, pattern, v + 1)
  }

  function KeyPattern(key: Bytes): Bytes {
    ['"'] + key + ['"']
  }

  /** `json_find_string_value(json, key, out)`. */
  function FindStringValue(json: Bytes, key: Bytes): Option<Bytes> {
    FindFrom(json, KeyPattern(key), 0)
  }

  const RoleTight: Bytes := "\"role\":\"assistant\""
  const RoleSpaced: Bytes := "\"role\": \"assistant\""
  const ContentKey: Bytes := "\"content\""

  /** The loop of `extract_assistant_content` from `p`. */
  function ContentFrom(json: Bytes, p: nat): Option<Bytes>
    requires p <= |json|
    decreases |json| - p
  {
    match IndexOf(json, ContentKey, p)
    case None => None
    case Some(hit) =>
      match ProbeAt(json, hit + |ContentKey|)
      case NoColon => None
      case Value(x) => Some(x)
      case NoValue(_) => ContentFrom(json, hit + 1)
  }

  /** Where the assistant marker is: the tight spelling is looked for first,
      the spaced one only when the tight one is absent. */
  function RoleMarker(json: Bytes): Option<nat> {
    if IndexOf(json, RoleTight, 0).Some? then IndexOf(json, RoleTight, 0) else IndexOf(json, RoleSpaced, 0)
  }

  /** `extract_assistant_content(json, out)`. */
  function AssistantContent(json: Bytes): Option<Bytes> {
    match RoleMarker(json)
    case None => None
    case Some(r) => ContentFrom(json, r)
  }

  method ScanToColon(s: Bytes, i: nat) returns (k: nat)
    requires i <= |s|
    ensures k == ColonFrom(s, i)
  {
    k := i;
    while k < |s| && s[k] != ':'
      invariant i <= k <= |s| && ColonFrom(s, k) == ColonFrom(s, i)
    {
      k := k + 1;
    }
  }

  method SkipSpace(s: Bytes, i: nat) returns (k: nat)
    requires i <= |s|
    ensures k == SkipJsonSpace(s, i)
  {
    k := i;
    while k < |s| && IsJsonSpace(s[k])
      invariant i <= k <= |s| && SkipJsonSpace(s, k) == SkipJsonSpace(s, i)
    {
      k := k + 1;
    }
  }

  /** The part both loops share, from the index just after the key. */
  method ProbeValue(json: Bytes, k: nat) returns (r: Probe)
    requires k <= |json|
    ensures r == ProbeAt(json, k)
  {
    var c := ScanToColon(json, k);
    if c == |json| {
      return NoColon;
    }
    var v := SkipSpace(json, c + 1);
    if v < |json| && json[v] == '"' {
      var value := ParseJsonString(json, v);
      if value.Some? {
        return Value(value.value.0);
      }
    }
    r := NoValue(v);
  }

  /** One pass of the `json_find_string_value` loop from `search`: either
      the answer, or where the next pass starts. */
  method FindStep(json: Bytes, pattern: Bytes, search: nat) returns (done: bool, r: Option<Bytes>, next: nat)
    requires search <= |json| && |pattern| > 0
    ensures done ==> r == FindFrom(json, pattern, search)
    ensures !done ==> search < next <= |json| && FindFrom(json, pattern, next) == FindFrom(json, pattern, search)
  {
    next := search;
    var hit := IndexOf(json, pattern, search);
    if hit.None? {
      return true, None, next;
    }
    var probe := ProbeValue(json, hit.value + |pattern|);
    match probe
    case NoColon =>
      return true, None, next;
    case Value(x) =>
      return true, Some(x), next;
    case NoValue(v) =>
      if v == |json| {
        return true, None, next;
      }
      return false, None, v + 1;
  }

  /** The loop of `json_find_string_value` (latinize.cpp). */
  method JsonFindStringValue(json: Bytes, key: Bytes) returns (r: Option<Bytes>)
    ensures r == FindStringValue(json, key)
  {
    var pattern := KeyPattern(key);
    var search := 0;
    while true
      invariant search <= |json|
      invariant FindFrom(json, pattern, search) == FindStringValue(json, key)
      decreases |json| - search
    {
      var done, found, next := FindStep(json, pattern, search);
      if done {
        return found;
      }
      search := next;
    }
  }

  /** One pass of the `extract_assistant_content` loop from `p`. */
  method ContentStep(json: Bytes, p: nat) returns (done: bool, r: Option<Bytes>, next: nat)
    requires p <= |json|
    ensures done ==> r == ContentFrom(json, p)
    ensures !done ==> p < next <= |json| && ContentFrom(json, next) == ContentFrom(json, p)
  {
    next := p;
    var hit := IndexOf(json, ContentKey, p);
    if hit.None? {
      return true, None, next;
    }
    var probe := ProbeValue(json, hit.value + |ContentKey|);
    match probe
    case NoColon =>
      return true, None, next;
    case Value(x) =>
      return true, Some(x), next;
    case NoValue(_) =>
      return false, None, hit.value + 1;
  }

  /** The loop of `extract_assistant_content` (latinize.cpp). */
  method ExtractAssistantContent(json: Bytes) returns (r: Option<Bytes>)
    ensures r == AssistantContent(json)
  {
    var role := IndexOf(json, RoleTight, 0);
    if role.None? {
      role := IndexOf(json, RoleSpaced, 0);
    }
    if role.None? {
      return None;
    }
    var p := role.value;
    while true
      invariant p <= |json|
      invariant ContentFrom(json, p) == AssistantContent(json)
      decreases |json| - p
    {
      var done, found, next := ContentStep(json, p);
      if done {
        return found;
      }
      p := next;
    }
  }

  lemma {:induction false} ColonFirst(s: Bytes, i: nat)
    requires i <= |s|
    ensures forall k :: i <= k < ColonFrom(s, i) ==> s[k] != ':'
    decreases |s| - i
  {
    if i < |s| && s[i] != ':' {
      ColonFirst(s, i + 1);
    }
  }

  /** A value found after a key is the string literal that follows the first
      colon after the key, past blanks. */
  lemma ProbeSound(json: Bytes, k: nat) returns (c: nat, v: nat)
    requires k <= |json| && ProbeAt(json, k).Value?
    ensures k <= c < v < |json| && json[c] == ':' && (forall i :: k <= i < c ==> json[i] != ':')
    ensures v == SkipJsonSpace(json, c + 1) && json[v] == '"'
    ensures JsonString(json, v).Some? && JsonString(json, v).value.0 == ProbeAt(json, k).value
  {
    c := ColonFrom(json, k);
    v := SkipJsonSpace(json, c + 1);
    ColonFirst(json, k);
  }

  /** A key followed by a colon and a string literal probes to that literal's value. */
  lemma ProbeWritten(json: Bytes, c: nat, v: Bytes)
    requires c < |json| && json[c] == ':' && JsonString(json, c + 1).Some? && JsonString(json, c + 1).value.0 == v
    ensures ProbeAt(json, c) == Value(v)
  {
    assert ColonFrom(json, c) == c;
    assert SkipJsonSpace(json, c + 1) == c + 1;
  }

  /** `json_find_string_value` returns the string literal that follows the
      first occurrence of `"key"` and a colon. */
  lemma FindValueAt(json: Bytes, key: Bytes, hit: nat, c: nat, v: Bytes)
    requires IndexOf(json, KeyPattern(key), 0) == Some(hit) && c == hit + |KeyPattern(key)|
    requires c < |json| && json[c] == ':' && JsonString(json, c + 1).Some? && JsonString(json, c + 1).value.0 == v
    ensures FindStringValue(json, key) == Some(v)
  {
    ProbeWritten(json, c, v);
    FindFromValue(json, KeyPattern(key), 0, hit, v);
  }

  /** `json_find_string_value` finds a value written as `"key":"<escaped value>"`
      when that is the first occurrence of `"key"`. */
  lemma FindWrittenValue(pre: Bytes, key: Bytes, v: Bytes, rest: Bytes)
    requires forall k :: 0 <= k < |v| ==> Escapable(v[k])
    requires IndexOf(pre + KeyPattern(key) + [':'] + ['"'] + Escaped(v) + ['"'] + rest, KeyPattern(key), 0) == Some(|pre|)
    ensures FindStringValue(pre + KeyPattern(key) + [':'] + ['"'] + Escaped(v) + ['"'] + rest, key) == Some(v)
  {
    var p: Bytes := pre + KeyPattern(key) + [':'];
    var json: Bytes := p + ['"'] + Escaped(v) + ['"'] + rest;
    var c: nat := |pre| + |KeyPattern(key)|;
    assert c < |json| && json[c] == ':' by {
      ColonBeforeString(pre + KeyPattern(key), Escaped(v), rest);
    }
    assert JsonString(json, c + 1) == Some((v, |p| + |Escaped(v)| + 2)) by {
      EscapeRoundTripAt(p, v, rest);
      assert c + 1 == |p|;
    }
    FindValueAt(json, key, |pre|, c, v);
  }

  lemma ColonBeforeString(a: Bytes, e: Bytes, rest: Bytes)
    ensures var s := a + [':'] + ['"'] + e + ['"'] + rest;
      |a| < |s| && s[|a|] == ':'
  {
  }

  /** A lookup stops at the first occurrence of the pattern when a string value follows it. */
  lemma FindFromValue(json: Bytes, pattern: Bytes, search: nat, hit: nat, x: Bytes)
    requires search <= |json| && |pattern| > 0
    requires IndexOf(json, pattern, search) == Some(hit) && ProbeAt(json, hit + |pattern|) == Value(x)
    ensures FindFrom(json, pattern, search) == Some(x)
  {
  }
}
