/** Bytes of the NUL-terminated strings the component works on, and the few
    C library helpers (`strstr`, `tolower` in the C locale) its code leans on. */
module Bytes {

  /** One byte. It is written as the char with the same code, so that ASCII
      literals of the source read as text here. */
  type byte = c: char | c < '\U{100}'

  type Bytes = seq<byte>

  datatype Option<T> = None | Some(value: T)

  /** A C string: no NUL byte before its terminator. */
  predicate NoNul(s: Bytes) {
    forall i :: 0 <= i < |s| ==> s[i] != '\0'
  }

  predicate IsUpper(b: byte) { 'A' <= b <= 'Z' }

  predicate IsLower(b: byte) { 'a' <= b <= 'z' }

  predicate IsDigit(b: byte) { '0' <= b <= '9' }

  /** A byte `(unsigned char)b <= 0x20`: what `trim_ascii` strips. */
  predicate IsBlank(b: byte) { b <= ' ' }

  /** `tolower` in the C locale: only `A`-`Z` change. */
  function ToLower(b: byte): (r: byte)
    ensures IsUpper(b) ==> r as int == b as int + 32 && IsLower(r)
    ensures !IsUpper(b) ==> r == b
  {
    if IsUpper(b) then (b as int + 32) as char else b
  }

  /** pfc's `add_char` given a `char`: the char is signed, so a byte `>= 0x80`
      widens to a code point above 0x7FFFFFFF, which pfc's UTF-8 encoder
      refuses, and nothing is appended. */
  function AddChar(c: byte): Bytes {
    if c < '\U{80}' then [c] else []
  }

  /** `n` occurs in `h` starting at index `i`. */
  predicate OccursAt(h: Bytes, n: Bytes, i: int) {
    0 <= i && i + |n| <= |h| && forall k :: 0 <= k < |n| ==> h[i + k] == n[k]
  }

  /** `strstr(h + from, n)`: the first index at or after `from` where `n` occurs. */
  function IndexOf(h: Bytes, n: Bytes, from: nat): (r: Option<nat>)
    ensures r.Some? ==> from <= r.value && r.value + |n| <= |h|
    decreases |h| - from
  {
    if from + |n| > |h| then None
    else if OccursAt(h, n, from) then Some(from)
    else IndexOf(h, n, from + 1)
  }

  /** `strstr` finds the first occurrence, and finds none only when there is none. */
  lemma {:induction false} IndexOfFirst(h: Bytes, n: Bytes, from: nat)
    ensures IndexOf(h, n, from).Some? ==>
      var i := IndexOf(h, n, from).value;
      from <= i && OccursAt(h, n, i) && forall j :: from <= j < i ==> !OccursAt(h, n, j)
    ensures IndexOf(h, n, from).None? ==> forall j :: from <= j ==> !OccursAt(h, n, j)
    decreases |h| - from
  {
    if from + |n| > |h| {
    } else if OccursAt(h, n, from) {
    } else {
      IndexOfFirst(h, n, from + 1);
    }
  }

  /** An occurrence with none before it (from `from` on) is what `strstr` finds. */
  lemma {:induction false} IndexOfIs(h: Bytes, n: Bytes, from: nat, i: nat)
    requires from <= i && OccursAt(h, n, i)
    requires forall j :: from <= j < i ==> !OccursAt(h, n, j)
    ensures IndexOf(h, n, from) == Some(i)
    decreases i - from
  {
    if from < i {
      IndexOfIs(h, n, from + 1, i);
    }
  }

  /** `strstr(h, n) != nullptr`. */
  predicate Contains(h: Bytes, n: Bytes) {
    IndexOf(h, n, 0).Some?
  }

  /** `Contains` is plain substring membership. */
  lemma ContainsIff(h: Bytes, n: Bytes)
    ensures Contains(h, n) <==> exists i :: OccursAt(h, n, i)
  {
    IndexOfFirst(h, n, 0);
  }
}
