/** `parse_response_for_latin`: the order in which the server's reply is
    searched for the answer text. */
module Response {
  import opened Bytes
  import opened Records
  import opened Lines
  import opened Json

  /** The marker of a chat-completion JSON reply. */
  const ChoicesKey: Bytes := "\"choices\""

  const ContentName: Bytes := "content"

  /** The answer text of a reply: the assistant message's `"content"`, else the
      first `"content"` of any kind, else nothing for a JSON reply, else the raw text. */
  function AnswerText(response: Bytes): (r: Option<Bytes>)
    ensures r.None? ==> Contains(response, ChoicesKey)
  {
    match AssistantContent(response)
    case Some(c) => Some(c)
    case None =>
      match FindStringValue(response, ContentName)
      case Some(c) => Some(c)
      case None => if Contains(response, ChoicesKey) then None else Some(response)
  }

  /** `parse_response_for_latin(response, out)`: a success holds sanitised
      fields, at least one of them non-empty. */
  function ParseResponse(response: Bytes): (r: Option<LatinRecord>)
    ensures r.Some? ==> AnswerText(response).Some? && r == ParseLines(AnswerText(response).value)
    ensures r.Some? ==>
      Text.Canonical(r.value.title) && Text.Canonical(r.value.album) && (r.value.title != [] || r.value.album != [])
  {
    match AnswerText(response)
    case Some(text) =>
      ParseLinesCanonical(text);
      ParseLines(text)
    case None => None
  }

  /** The chain of `parse_response_for_latin` (latinize.cpp), over the loops
      that implement each step. */
  method ParseResponseForLatin(response: Bytes) returns (r: Option<LatinRecord>)
    ensures r == ParseResponse(response)
  {
    var assistant := ExtractAssistantContent(response);
    if assistant.Some? {
      r := ParseLatinLines(assistant.value);
      return;
    }
    var content := JsonFindStringValue(response, ContentName);
    if content.Some? {
      r := ParseLatinLines(content.value);
      return;
    }
    if Contains(response, ChoicesKey) {
      return None;
    }
    r := ParseLatinLines(response);
  }

  /** `strstr` from a later index finds nothing when it found nothing from the start. */
  lemma IndexOfNoneFrom(h: Bytes, n: Bytes, p: nat)
    requires IndexOf(h, n, 0).None?
    ensures IndexOf(h, n, p).None?
  {
    IndexOfFirst(h, n, 0);
    IndexOfFirst(h, n, p);
  }

  lemma {:induction false} ContentFromNone(json: Bytes, p: nat)
    requires p <= |json| && IndexOf(json, ContentKey, 0).None?
    ensures ContentFrom(json, p).None?
  {
    IndexOfNoneFrom(json, ContentKey, p);
  }

  /** A reply that holds no `"content"` at all yields no content by either lookup. */
  lemma NoContentKey(response: Bytes)
    requires !Contains(response, ContentKey)
    ensures AssistantContent(response).None? && FindStringValue(response, ContentName).None?
  {
    assert KeyPattern(ContentName) == ContentKey;
    if RoleMarker(response).Some? {
      ContentFromNone(response, RoleMarker(response).value);
    }
  }

  /** Without any `"content"`, a reply is parsed as raw text exactly when it
      has no `"choices"` marker; with the marker it fails. */
  lemma RawTextFallback(response: Bytes)
    requires !Contains(response, ContentKey)
    ensures !Contains(response, ChoicesKey) ==> ParseResponse(response) == ParseLines(response)
    ensures Contains(response, ChoicesKey) ==> ParseResponse(response).None?
  {
    NoContentKey(response);
  }

  /** A reply whose first `"content"` key after the assistant marker is
      followed at once by a colon and a string literal is parsed as that
      literal's value, whatever other keys surround it. */
  lemma AssistantAnswerAt(json: Bytes, r: nat, hit: nat, v: Bytes)
    requires RoleMarker(json) == Some(r) && r <= |json| && IndexOf(json, ContentKey, r) == Some(hit)
    requires hit + |ContentKey| < |json| && json[hit + |ContentKey|] == ':'
    requires JsonString(json, hit + |ContentKey| + 1).Some? && JsonString(json, hit + |ContentKey| + 1).value.0 == v
    ensures ParseResponse(json) == ParseLines(v)
  {
    ProbeWritten(json, hit + |ContentKey|, v);
    ContentFromValue(json, r, hit, v);
  }

  lemma ContentFromValue(json: Bytes, p: nat, hit: nat, x: Bytes)
    requires p <= |json|
    requires IndexOf(json, ContentKey, p) == Some(hit) && ProbeAt(json, hit + |ContentKey|) == Value(x)
    ensures ContentFrom(json, p) == Some(x)
  {
  }

  /** Without an assistant marker, a reply whose first `"content"` is written
      as `"content":"<escaped answer>"` is parsed as that answer. */
  lemma ContentAnswerRoundTrip(pre: Bytes, v: Bytes, rest: Bytes)
    requires forall k :: 0 <= k < |v| ==> Escapable(v[k])
    requires var json := pre + KeyPattern(ContentName) + [':'] + ['"'] + Escaped(v) + ['"'] + rest;
      !Contains(json, RoleTight) && !Contains(json, RoleSpaced) && IndexOf(json, KeyPattern(ContentName), 0) == Some(|pre|)
    ensures ParseResponse(pre + KeyPattern(ContentName) + [':'] + ['"'] + Escaped(v) + ['"'] + rest) == ParseLines(v)
  {
    FindWrittenValue(pre, ContentName, v, rest);
  }
}
