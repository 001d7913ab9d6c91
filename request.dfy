/** The request side of `request_latinized_ex` (latinize.cpp): the prompt
    template, the JSON body sent to the chat-completion endpoint, the status
    line of the reply and the error text shown when a request fails. The HTTP
    exchange itself is a parameter (`Transport`). */
module Request {
  import opened Bytes
  import opened Records
  import opened Json
  import opened Response
  import Text

  // ---------------------------------------------------------------------------
  // replace_token

  /** The text `replace_token` produces from index `p` of `src` on, read left
      to right: at an occurrence of `token` the value and a jump past the
      token, otherwise the byte itself. */
  function ReplaceFrom(src: Bytes, token: Bytes, value: Bytes, p: nat): Bytes
    requires |token| > 0 && p <= |src|
    decreases |src| - p
  {
    if p == |src| then []
    else if OccursAt(src, token, p) then value + ReplaceFrom(src, token, value, p + |token|)
    else [src[p]] + ReplaceFrom(src, token, value, p + 1)
  }

  /** `replace_token(src, token, value)`. */
  function ReplaceAll(src: Bytes, token: Bytes, value: Bytes): Bytes
    requires |token| > 0
  {
    ReplaceFrom(src, token, value, 0)
  }

  /** Bytes with no occurrence starting among them are copied as they are. */
  lemma {:induction false} CopyUntil(src: Bytes, token: Bytes, value: Bytes, p: nat, h: nat)
    requires |token| > 0 && p <= h <= |src|
    requires forall j :: p <= j < h ==> !OccursAt(src, token, j)
    ensures ReplaceFrom(src, token, value, p) == src[p..h] + ReplaceFrom(src, token, value, h)
    decreases h - p
  {
    if p < h {
      assert !OccursAt(src, token, p);
      CopyOne(src, token, value, p);
      CopyUntil(src, token, value, p + 1, h);
      ConsSlice(src, p, h, ReplaceFrom(src, token, value, h));
    }
  }

  lemma ConsSlice(s: Bytes, p: nat, h: nat, rest: Bytes)
    requires p < h <= |s|
    ensures [s[p]] + (s[p + 1..h] + rest) == s[p..h] + rest
  {
    assert s[p..h] == [s[p]] + s[p + 1..h];
  }

  lemma CopyOne(src: Bytes, token: Bytes, value: Bytes, p: nat)
    requires |token| > 0 && p < |src| && !OccursAt(src, token, p)
    ensures ReplaceFrom(src, token, value, p) == [src[p]] + ReplaceFrom(src, token, value, p + 1)
  {
  }

  /** Where `strstr` finds the token, the bytes before it are copied and the value follows. */
  lemma ReplaceHit(src: Bytes, token: Bytes, value: Bytes, p: nat, h: nat)
    requires |token| > 0 && p <= |src| && IndexOf(src, token, p) == Some(h)
    ensures h + |token| <= |src|
    ensures ReplaceFrom(src, token, value, p) == src[p..h] + value + ReplaceFrom(src, token, value, h + |token|)
  {
    IndexOfFirst(src, token, p);
    CopyUntil(src, token, value, p, h);
  }

  /** Where `strstr` finds nothing, the rest is copied. */
  lemma ReplaceMiss(src: Bytes, token: Bytes, value: Bytes, p: nat)
    requires |token| > 0 && p <= |src| && IndexOf(src, token, p).None?
    ensures ReplaceFrom(src, token, value, p) == src[p..]
  {
    IndexOfFirst(src, token, p);
    CopyUntil(src, token, value, p, |src|);
  }

  /** The loop of `replace_token` (latinize.cpp). An empty token would make
      `strstr` hit at `p` forever, so the token is required to be non-empty. */
  method ReplaceToken(src: Bytes, token: Bytes, value: Bytes) returns (out: Bytes)
    requires |token| > 0
    ensures out == ReplaceAll(src, token, value)
  {
    out := [];
    var p := 0;
    while p < |src|
      invariant p <= |src|
      invariant out + ReplaceFrom(src, token, value, p) == ReplaceAll(src, token, value)
      decreases |src| - p
    {
      out, p := ReplaceStep(src, token, value, out, p);
    }
  }

  /** One pass of the `replace_token` loop: the bytes before the next hit and
      the value, or the rest when there is no hit. */
  method ReplaceStep(src: Bytes, token: Bytes, value: Bytes, out: Bytes, p: nat) returns (out': Bytes, p': nat)
    requires |token| > 0 && p < |src|
    ensures p < p' <= |src|
    ensures out' + ReplaceFrom(src, token, value, p') == out + ReplaceFrom(src, token, value, p)
  {
    var hit := IndexOf(src, token, p);
    if hit.None? {
      ReplaceMiss(src, token, value, p);
      out', p' := out + src[p..], |src|;
    } else {
      var h := hit.value;
      ReplaceHit(src, token, value, p, h);
      var rest := ReplaceFrom(src, token, value, h + |token|);
      out', p' := out + src[p..h] + value, h + |token|;
      assert out' + rest == out + (src[p..h] + value + rest);
    }
  }

  /** A source without the token comes back unchanged. */
  lemma ReplaceNoToken(src: Bytes, token: Bytes, value: Bytes)
    requires |token| > 0 && IndexOf(src, token, 0).None?
    ensures ReplaceAll(src, token, value) == src
  {
    ReplaceMiss(src, token, value, 0);
  }

  /** Replacing a token by itself changes nothing. */
  lemma {:induction false} ReplaceSelf(src: Bytes, token: Bytes, p: nat)
    requires |token| > 0 && p <= |src|
    ensures ReplaceFrom(src, token, token, p) == src[p..]
    decreases |src| - p
  {
    if p < |src| {
      if OccursAt(src, token, p) {
        assert ReplaceFrom(src, token, token, p) == token + src[p + |token|..] by {
          ReplaceSelf(src, token, p + |token|);
        }
        assert src[p..] == token + src[p + |token|..] by {
          assert src[p..p + |token|] == token;
          assert src[p..] == src[p..p + |token|] + src[p + |token|..];
        }
      } else {
        assert ReplaceFrom(src, token, token, p) == [src[p]] + src[p + 1..] by {
          ReplaceSelf(src, token, p + 1);
        }
        assert src[p..] == [src[p]] + src[p + 1..];
      }
    }
  }

  /** What `replace_token` does after a prefix does not depend on the prefix. */
  lemma {:induction false} ReplaceShift(pre: Bytes, s: Bytes, token: Bytes, value: Bytes, k: nat)
    requires |token| > 0 && k <= |s|
    ensures ReplaceFrom(pre + s, token, value, |pre| + k) == ReplaceFrom(s, token, value, k)
    decreases |s| - k
  {
    if k < |s| {
      var whole := pre + s;
      assert OccursAt(whole, token, |pre| + k) <==> OccursAt(s, token, k) by {
        assert forall j :: 0 <= j < |s| ==> whole[|pre| + j] == s[j];
      }
      if OccursAt(s, token, k) {
        ReplaceShift(pre, s, token, value, k + |token|);
      } else {
        ReplaceShift(pre, s, token, value, k + 1);
        assert whole[|pre| + k] == s[k];
      }
    }
  }

  /** The first token is replaced by the value and the scan goes on after it. */
  lemma ReplaceFirst(a: Bytes, token: Bytes, value: Bytes, b: Bytes)
    requires |token| > 0 && IndexOf(a + token + b, token, 0) == Some(|a|)
    ensures ReplaceAll(a + token + b, token, value) == a + value + ReplaceAll(b, token, value)
  {
    var s := a + token + b;
    ReplaceHit(s, token, value, 0, |a|);
    assert s[0..|a|] == a;
    ReplaceShift(a + token, b, token, value, 0);
  }

  /** `strstr(t, t)` hits at 0. */
  lemma IndexOfSelf(t: Bytes)
    ensures IndexOf([] + t + [], t, 0) == Some(0)
  {
    assert [] + t + [] == t;
    assert OccursAt(t, t, 0);
  }

  // ---------------------------------------------------------------------------
  // The prompt

  const TitleToken: Bytes := "{title}"
  const AlbumToken: Bytes := "{album}"

  /** The resolved prompt: `{title}` replaced first, then `{album}` in the result. */
  function Prompt(template: Bytes, title: Bytes, album: Bytes): Bytes {
    ReplaceAll(ReplaceAll(template, TitleToken, title), AlbumToken, album)
  }

  /** The two replacements of `request_latinized_ex`, over the loop. */
  method ResolvePrompt(template: Bytes, title: Bytes, album: Bytes) returns (prompt: Bytes)
    ensures prompt == Prompt(template, title, album)
  {
    prompt := ReplaceToken(template, TitleToken, title);
    prompt := ReplaceToken(prompt, AlbumToken, album);
  }

  /** A template without either token is sent as it is. */
  lemma PromptWithoutTokens(template: Bytes, title: Bytes, album: Bytes)
    requires IndexOf(template, TitleToken, 0).None? && IndexOf(template, AlbumToken, 0).None?
    ensures Prompt(template, title, album) == template
  {
    ReplaceNoToken(template, TitleToken, title);
    ReplaceNoToken(template, AlbumToken, album);
  }

  /** The template `{title}` resolves to the title when the title holds no `{album}`. */
  lemma PromptOfTitle(title: Bytes, album: Bytes)
    requires IndexOf(title, AlbumToken, 0).None?
    ensures Prompt(TitleToken, title, album) == title
  {
    IndexOfSelf(TitleToken);
    ReplaceFirst([], TitleToken, title, []);
    assert ReplaceAll(TitleToken, TitleToken, title) == title;
    ReplaceNoToken(title, AlbumToken, album);
  }

  /** A `{album}` inside the title is replaced too: the second pass runs over
      the text the first one produced. */
  lemma AlbumTokenInTitle(album: Bytes)
    ensures Prompt(TitleToken, AlbumToken, album) == album
  {
    IndexOfSelf(TitleToken);
    ReplaceFirst([], TitleToken, AlbumToken, []);
    assert ReplaceAll(TitleToken, TitleToken, AlbumToken) == AlbumToken;
    IndexOfSelf(AlbumToken);
    ReplaceFirst([], AlbumToken, album, []);
  }

  // ---------------------------------------------------------------------------
  // The request body

  const ModelName: Bytes := "model"

  /** `{"model":"<escaped model>"`. */
  function ModelField(model: Bytes): Bytes {
    ['{'] + KeyPattern(ModelName) + [':'] + ['"'] + Escaped(model) + ['"']
  }

  /** The fixed text between the model and the user message's string. */
  const MessagesHead: Bytes := MessagesKey + SystemMessage + UserMessageHead

  const MessagesKey: Bytes := ",\"messages\":["
  const SystemMessage: Bytes :=
    "{\"role\":\"system\",\"content\":" + "\"You produce latinized " + "ASCII-only names.\"},"
  const UserMessageHead: Bytes := "{\"role\":\"user\",\"content\":"

  /** The fixed text after the user message's string. */
  const BodyTail: Bytes := "}],\"stream\":false,\"temperature\":0.2}"

  /** The messages array with the user message's string, and the options. */
  function MessagesField(prompt: Bytes): Bytes {
    MessagesHead + ['"'] + Escaped(prompt) + ['"'] + BodyTail
  }

  /** The JSON body `request_latinized_ex` posts. */
  function RequestBody(model: Bytes, prompt: Bytes): Bytes {
    ModelField(model) + MessagesField(prompt)
  }

  lemma BodyLayout(model: Bytes, prompt: Bytes)
    ensures RequestBody(model, prompt)
         == ModelField(model) + MessagesHead + ['"'] + Escaped(prompt) + ['"'] + BodyTail
  {
  }

  /** The user message's string in the body reads back as the prompt, for any
      prompt whose only control bytes are LF, CR and TAB. */
  lemma PromptReadsBack(model: Bytes, prompt: Bytes)
    requires forall k :: 0 <= k < |prompt| ==> Escapable(prompt[k])
    ensures JsonString(RequestBody(model, prompt), |ModelField(model) + MessagesHead|)
         == Some((prompt, |ModelField(model) + MessagesHead| + |Escaped(prompt)| + 2))
  {
    BodyLayout(model, prompt);
    EscapeRoundTripAt(ModelField(model) + MessagesHead, prompt, BodyTail);
  }

  /** `json_find_string_value(body, "model")` reads the model back. */
  lemma ModelReadsBack(model: Bytes, prompt: Bytes)
    requires forall k :: 0 <= k < |model| ==> Escapable(model[k])
    ensures FindStringValue(RequestBody(model, prompt), ModelName) == Some(model)
  {
    ModelKeyFirst(model, prompt);
    ModelValueAt(model, prompt);
    FindValueAt(RequestBody(model, prompt), ModelName, 1, 1 + |KeyPattern(ModelName)|, model);
  }

  /** The first `"model"` of the body is the one right after the opening brace. */
  lemma ModelKeyFirst(model: Bytes, prompt: Bytes)
    ensures IndexOf(RequestBody(model, prompt), KeyPattern(ModelName), 0) == Some(1)
  {
    var body := RequestBody(model, prompt);
    var key := KeyPattern(ModelName);
    assert !OccursAt(body, key, 0) by {
      assert body[0 + 0] == '{' && key[0] == '"';
    }
    assert OccursAt(body, key, 1) by {
      assert body[1..1 + |key|] == key;
    }
    assert IndexOf(body, key, 1) == Some(1);
  }

  /** A colon follows the key, then the model's string. */
  lemma ModelValueAt(model: Bytes, prompt: Bytes)
    requires forall k :: 0 <= k < |model| ==> Escapable(model[k])
    ensures var c := 1 + |KeyPattern(ModelName)|;
      && c < |RequestBody(model, prompt)| && RequestBody(model, prompt)[c] == ':'
      && JsonString(RequestBody(model, prompt), c + 1).Some?
      && JsonString(RequestBody(model, prompt), c + 1).value.0 == model
  {
    ModelColon(model, prompt);
    EscapeRoundTripAt(['{'] + KeyPattern(ModelName) + [':'], model, MessagesField(prompt));
  }

  lemma ModelColon(model: Bytes, prompt: Bytes)
    ensures 1 + |KeyPattern(ModelName)| < |RequestBody(model, prompt)|
    ensures RequestBody(model, prompt)[1 + |KeyPattern(ModelName)|] == ':'
  {
    var key := KeyPattern(ModelName);
    assert RequestBody(model, prompt)[..1 + |key| + 1] == ['{'] + key + [':'];
  }

  // ---------------------------------------------------------------------------
  // parse_status_code

  /** The number of consecutive digits at `p`, at most `n`. */
  function DigitRun(s: Bytes, p: nat, n: nat): (k: nat)
    requires p <= |s|
    ensures k <= n && p + k <= |s|
    ensures forall i :: p <= i < p + k ==> IsDigit(s[i])
    decreases n
  {
    if n == 0 || p == |s| || !IsDigit(s[p]) then 0 else 1 + DigitRun(s, p + 1, n - 1)
  }

  function DigitValue(b: byte): nat
    requires IsDigit(b)
  {
    b as int - '0' as int
  }

  /** The decimal number the digits `d` spell, most significant first. */
  function DecimalValue(d: Bytes): nat
    requires forall i :: 0 <= i < |d| ==> IsDigit(d[i])
  {
    if d == [] then 0 else DecimalValue(d[..|d| - 1]) * 10 + DigitValue(d[|d| - 1])
  }

  function Pow10(n: nat): nat {
    if n == 0 then 1 else 10 * Pow10(n - 1)
  }

  /** `parse_status_code(line)`: the (at most three) digits right after the
      first space, or 0 when there is no space or no digit there. */
  function StatusCode(line: Bytes): nat {
    match IndexOf(line, [' '], 0)
    case None => 0
    case Some(sp) =>
      var p := sp + 1;
      if p < |line| && IsDigit(line[p]) then DecimalValue(line[p..p + DigitRun(line, p, 3)]) else 0
  }

  /** The loop of `parse_status_code` (latinize.cpp). */
  method ParseStatusCode(line: Bytes) returns (code: int)
    ensures code == StatusCode(line)
  {
    var space := IndexOf(line, [' '], 0);
    if space.None? {
      return 0;
    }
    var p := space.value + 1;
    if !(p < |line| && IsDigit(line[p])) {
      return 0;
    }
    code := 0;
    var i := 0;
    while i < 3 && p + i < |line| && IsDigit(line[p + i])
      invariant 0 <= i <= 3 && p + i <= |line|
      invariant i + DigitRun(line, p + i, 3 - i) == DigitRun(line, p, 3)
      invariant forall k :: p <= k < p + i ==> IsDigit(line[k])
      invariant code == DecimalValue(line[p..p + i])
    {
      assert line[p..p + i + 1][..i] == line[p..p + i];
      code := code * 10 + (line[p + i] as int - '0' as int);
      i := i + 1;
    }
  }

  /** `n` digits spell a number below `10^n`. */
  lemma {:induction false} DecimalBound(d: Bytes)
    requires forall i :: 0 <= i < |d| ==> IsDigit(d[i])
    ensures DecimalValue(d) < Pow10(|d|)
    decreases |d|
  {
    if d != [] {
      DecimalBound(d[..|d| - 1]);
    }
  }

  /** Three digits spell hundreds, tens and units. */
  lemma DecimalThree(d: Bytes)
    requires |d| == 3 && forall i :: 0 <= i < 3 ==> IsDigit(d[i])
    ensures DecimalValue(d) == 100 * DigitValue(d[0]) + 10 * DigitValue(d[1]) + DigitValue(d[2])
  {
    assert DecimalValue(d[..1]) == DigitValue(d[0]) by {
      assert d[..1][..0] == [];
    }
    assert DecimalValue(d[..2]) == DecimalValue(d[..1]) * 10 + DigitValue(d[1]) by {
      assert d[..2][..1] == d[..1];
    }
    assert d[..3] == d;
  }

  /** Three digits in a row make a full run. */
  lemma ThreeDigits(s: Bytes, p: nat)
    requires p <= |s|
    ensures p + 3 <= |s| && IsDigit(s[p]) && IsDigit(s[p + 1]) && IsDigit(s[p + 2]) ==> DigitRun(s, p, 3) == 3
  {
  }

  /** The code is never above 999. */
  lemma StatusCodeBound(line: Bytes)
    ensures StatusCode(line) < 1000
  {
    match IndexOf(line, [' '], 0)
    case None =>
    case Some(sp) =>
      var p := sp + 1;
      if p < |line| && IsDigit(line[p]) {
        var d := line[p..p + DigitRun(line, p, 3)];
        DecimalBound(d);
        assert Pow10(|d|) <= Pow10(3);
      }
  }

  /** For a status line `HTTP-version SP status-code SP reason-phrase` as in
      section 4 of RFC 9112, the code is the three-digit status code. */
  lemma StatusLineCode(version: Bytes, digits: Bytes, rest: Bytes)
    requires forall i :: 0 <= i < |version| ==> version[i] != ' '
    requires |digits| == 3 && forall i :: 0 <= i < 3 ==> IsDigit(digits[i])
    ensures StatusCode(version + [' '] + digits + rest)
         == 100 * DigitValue(digits[0]) + 10 * DigitValue(digits[1]) + DigitValue(digits[2])
  {
    var line := version + [' '] + digits + rest;
    var p := |version| + 1;
    assert forall j :: 0 <= j < |version| ==> line[j] == version[j];
    assert OccursAt(line, [' '], |version|) by {
      assert line[|version| + 0] == ' ';
    }
    forall j | 0 <= j < |version|
      ensures !OccursAt(line, [' '], j)
    {
      assert line[j] == version[j] != ' ';
      assert line[j + 0] == line[j];
    }
    IndexOfIs(line, [' '], 0, |version|);
    assert line[p..p + 3] == digits;
    assert DigitRun(line, p, 3) == 3 by {
      assert line[p] == digits[0] && line[p + 1] == digits[1] && line[p + 2] == digits[2];
    }
    DecimalThree(digits);
  }

  /** The 2xx test at latinize.cpp:696. */
  predicate IsSuccess(code: int) {
    !(code < 200 || code >= 300)
  }

  /** The first space of the line is followed by `2` and two more digits. */
  predicate SuccessLine(line: Bytes) {
    match IndexOf(line, [' '], 0)
    case None => false
    case Some(sp) =>
      sp + 4 <= |line| && line[sp + 1] == '2' && IsDigit(line[sp + 2]) && IsDigit(line[sp + 3])
  }

  /** A reply counts as a success exactly when its status line has `2dd` after the first space. */
  lemma SuccessIff(line: Bytes)
    ensures IsSuccess(StatusCode(line)) <==> SuccessLine(line)
  {
    match IndexOf(line, [' '], 0)
    case None =>
    case Some(sp) =>
      var p := sp + 1;
      if p < |line| && IsDigit(line[p]) {
        var k := DigitRun(line, p, 3);
        var d := line[p..p + k];
        if k < 3 {
          DecimalBound(d);
          assert Pow10(|d|) <= 100;
          ThreeDigits(line, p);
        } else {
          DecimalThree(d);
        }
      }
  }

  // ---------------------------------------------------------------------------
  // append_body_snippet and the error messages

  /** `maxLen` of `append_body_snippet`. */
  const SnippetCap: nat := 2048

  const ShortHeader: Bytes := "Body:\r\n"
  const LongHeader: Bytes := "Body (first 2048 bytes):\r\n"

  /** What `append_body_snippet(out, body)` appends to `out`. */
  function BodySnippet(body: Bytes): Bytes {
    if |body| <= SnippetCap then ShortHeader + body else LongHeader + body[..SnippetCap]
  }

  /** The snippet ends with the first `min(|body|, 2048)` bytes of the body,
      after a header that says whether it was cut, and so never exceeds the
      long header plus 2048 bytes. */
  lemma SnippetShape(body: Bytes)
    ensures var n := if |body| <= SnippetCap then |body| else SnippetCap;
      var r := BodySnippet(body);
      && n <= |r| <= |LongHeader| + SnippetCap
      && r[|r| - n..] == body[..n]
      && (r[..|r| - n] == ShortHeader <==> |body| <= SnippetCap)
  {
    var n := if |body| <= SnippetCap then |body| else SnippetCap;
    var r := BodySnippet(body);
    if |body| <= SnippetCap {
      assert r[|r| - n..] == body;
      assert r[..|r| - n] == ShortHeader;
    } else {
      assert r[|r| - n..] == body[..n];
      assert r[..|r| - n] == LongHeader;
      assert LongHeader[4] != ShortHeader[4];
    }
  }

  const HttpErrorHead: Bytes := "HTTP error. Status: "
  const Unknown: Bytes := "unknown"
  const ContentTypeLabel: Bytes := "\r\nContent-Type: "
  const CrLf: Bytes := "\r\n"
  const EmptyUrlMessage: Bytes := "API URL is empty."
  const IoErrorMessage: Bytes := "Network/IO error."
  const UnexpectedMessage: Bytes := "Unexpected error."
  const NoFieldsMessage: Bytes := "Parsed response but " + "did not find latinized fields."

  /** `msg << "\r\n"; append_body_snippet(msg, response)` when the response is non-empty. */
  function WithSnippet(msg: Bytes, response: Bytes): Bytes {
    if |response| > 0 then msg + CrLf + BodySnippet(response) else msg
  }

  /** The message for a reply whose status is not 2xx. */
  function HttpErrorMessage(statusLine: Bytes, contentType: Bytes, response: Bytes): Bytes {
    var msg := HttpErrorHead + (if |statusLine| > 0 then statusLine else Unknown);
    var msg := if |contentType| > 0 then msg + ContentTypeLabel + contentType else msg;
    WithSnippet(msg, response)
  }

  /** What the HTTP exchange gives back: a reply (status line and content type
      are empty when the reply object is not an `http_reply`), an I/O error,
      any other exception, or the user's cancellation. */
  datatype Transport =
    | Delivered(statusLine: Bytes, contentType: Bytes, response: Bytes)
    | IoFailure
    | OtherFailure
    | Cancelled

  /** What `request_latinized_ex` ends with: `true` and a record, `false` and
      an error text, or the rethrown `exception_aborted`. */
  datatype Outcome = Latinized(record: LatinRecord) | Failed(error: Bytes) | Aborted

  /** `request_latinized_ex(title, album, out, abort, outError, outRaw)` once
      the HTTP exchange has given `t`. */
  function RequestOutcome(apiUrl: Bytes, t: Transport): Outcome {
    if |apiUrl| == 0 then Failed(EmptyUrlMessage)
    else match t
      case Cancelled => Aborted
      case IoFailure => Failed(IoErrorMessage)
      case OtherFailure => Failed(UnexpectedMessage)
      case Delivered(statusLine, contentType, response) =>
        if !IsSuccess(StatusCode(statusLine)) then Failed(HttpErrorMessage(statusLine, contentType, response))
        else match ParseResponse(response)
          case Some(rec) => Latinized(rec)
          case None => Failed(WithSnippet(NoFieldsMessage, response))
  }

  /** A request yields a record exactly when the URL is set, a reply arrived
      with a 2xx status line and its body parses; the record is that parse,
      sanitised and with a non-empty field. */
  lemma LatinizedIff(apiUrl: Bytes, t: Transport)
    ensures RequestOutcome(apiUrl, t).Latinized? <==>
      |apiUrl| > 0 && t.Delivered? && SuccessLine(t.statusLine) && ParseResponse(t.response).Some?
    ensures RequestOutcome(apiUrl, t).Latinized? ==>
      var r := RequestOutcome(apiUrl, t).record;
      r == ParseResponse(t.response).value
      && Text.Canonical(r.title) && Text.Canonical(r.album) && (r.title != [] || r.album != [])
  {
    if t.Delivered? {
      SuccessIff(t.statusLine);
    }
  }

  /** A non-2xx reply fails with a message that starts with the status line
      (or `unknown`), and never parses the body. */
  lemma HttpErrorReported(apiUrl: Bytes, statusLine: Bytes, contentType: Bytes, response: Bytes)
    requires |apiUrl| > 0 && !SuccessLine(statusLine)
    ensures var o := RequestOutcome(apiUrl, Delivered(statusLine, contentType, response));
      && o.Failed?
      && HttpErrorHead + (if |statusLine| > 0 then statusLine else Unknown) <= o.error
  {
    SuccessIff(statusLine);
    var msg: Bytes := HttpErrorHead + (if |statusLine| > 0 then statusLine else Unknown);
    var msg2: Bytes := if |contentType| > 0 then msg + ContentTypeLabel + contentType else msg;
    assert msg <= msg2;
    assert msg2 <= WithSnippet(msg2, response);
  }
}
