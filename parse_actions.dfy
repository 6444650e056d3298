/**
 * The extraction step of the resume pipeline: one call to a generative model
 * with the stored PDF, cleanup of the model's text (code-fence removal and
 * trimming, with the exact semantics of the three anchored regular
 * expressions and `String.prototype.trim`), then a JSON parse that may fail.
 * Every failure becomes "no result" (`null`); nothing is thrown.
 */
module ParseActions {
  import opened Wrappers

  // ---------------------------------------------------------------------
  // Whitespace and trimming, as ECMAScript defines them
  // ---------------------------------------------------------------------

  /** ECMAScript WhiteSpace or LineTerminator: exactly what the regular
      expression class `\s` matches and what `trim` removes. */
  predicate IsSpace(c: char) {
    || c == '\t' || c == '\n' || c == '\U{000B}' || c == '\U{000C}' || c == '\r'
    || c == ' ' || c == '\U{00A0}' || c == '\U{1680}'
    || ('\U{2000}' <= c <= '\U{200A}')
    || c == '\U{2028}' || c == '\U{2029}' || c == '\U{202F}' || c == '\U{205F}'
    || c == '\U{3000}' || c == '\U{FEFF}'
  }

  predicate AllSpace(s: string) {
    forall i :: 0 <= i < |s| ==> IsSpace(s[i])
  }

  /** Neither end of `s` is whitespace. */
  predicate IsTrimmed(s: string) {
    s == [] || (!IsSpace(s[0]) && !IsSpace(s[|s| - 1]))
  }

  /** What `\s*` at the start of a match consumes: the longest whitespace prefix. */
  function TrimStart(s: string): (r: string)
    ensures |r| <= |s|
    ensures r == [] || !IsSpace(r[0])
    decreases |s|
  {
    if |s| > 0 && IsSpace(s[0]) then
      TrimStart(s[1..])
    else s
  }

  /** The longest whitespace suffix removed. */
  function TrimEnd(s: string): (r: string)
    ensures |r| <= |s|
    ensures r == [] || !IsSpace(r[|r| - 1])
    decreases |s|
  {
    if |s| > 0 && IsSpace(s[|s| - 1]) then
      TrimEnd(s[..|s| - 1])
    else s
  }

  /** `String.prototype.trim`: `s` is some whitespace, then the result, then
      some whitespace, and the result has whitespace at neither end. */
  function Trim(s: string): (r: string)
    ensures IsTrimmed(r)
    ensures |r| <= |s|
  {
    var t := TrimStart(s);
    var r := TrimEnd(t);
    TrimEndRemovesSpace(t);
    assert r != [] ==> r[0] == t[0];
    r
  }

  /** `TrimStart` keeps a suffix and removes whitespace only. */
  lemma {:induction false} TrimStartRemovesSpace(s: string)
    ensures var r := TrimStart(s); r == s[|s| - |r|..] && AllSpace(s[..|s| - |r|])
    decreases |s|
  {
    if |s| > 0 && IsSpace(s[0]) {
      var r := TrimStart(s[1..]);
      TrimStartRemovesSpace(s[1..]);
      assert s[1..][|s| - 1 - |r|..] == s[|s| - |r|..];
      forall i | 0 < i < |s| - |r| ensures IsSpace(s[i]) {
        assert s[i] == s[1..][..|s| - 1 - |r|][i - 1];
      }
    }
  }

  /** `TrimEnd` keeps a prefix and removes whitespace only. */
  lemma {:induction false} TrimEndRemovesSpace(s: string)
    ensures var r := TrimEnd(s); r == s[..|r|] && AllSpace(s[|r|..])
    decreases |s|
  {
    if |s| > 0 && IsSpace(s[|s| - 1]) {
      var r := TrimEnd(s[..|s| - 1]);
      TrimEndRemovesSpace(s[..|s| - 1]);
      forall i | |r| <= i < |s| - 1 ensures IsSpace(s[i]) {
        assert s[i] == s[..|s| - 1][|r|..][i - |r|];
      }
    }
  }

  /** `trim` removes nothing but whitespace: the text is some whitespace,
      the result, then some whitespace. */
  lemma TrimRemovesOnlySpace(s: string)
    ensures exists pre, post :: AllSpace(pre) && AllSpace(post) && s == pre + Trim(s) + post
  {
    var t := TrimStart(s);
    var r := TrimEnd(t);
    TrimStartRemovesSpace(s);
    TrimEndRemovesSpace(t);
    var pre, post := s[..|s| - |t|], t[|r|..];
    assert s == pre + r + post;
  }

  lemma {:induction false} TrimStartSkipsSpace(w: string, t: string)
    requires AllSpace(w)
    ensures TrimStart(w + t) == TrimStart(t)
    decreases |w|
  {
    if w != [] {
      assert (w + t)[0] == w[0] && IsSpace(w[0]);
      assert AllSpace(w[1..]);
      assert (w + t)[1..] == w[1..] + t;
      TrimStartSkipsSpace(w[1..], t);
    } else {
      assert w + t == t;
    }
  }

  lemma {:induction false} TrimEndSkipsSpace(t: string, w: string)
    requires AllSpace(w)
    ensures TrimEnd(t + w) == TrimEnd(t)
    decreases |w|
  {
    if w != [] {
      var n := |w| - 1;
      assert (t + w)[|t + w| - 1] == w[n] && IsSpace(w[n]);
      assert AllSpace(w[..n]);
      assert (t + w)[..|t + w| - 1] == t + w[..n];
      TrimEndSkipsSpace(t, w[..n]);
    } else {
      assert t + w == t;
    }
  }

  lemma TrimmedIsFixedPoint(s: string)
    requires IsTrimmed(s)
    ensures TrimStart(s) == s && TrimEnd(s) == s && Trim(s) == s
  {
  }

  /** Trimming leaves nothing exactly when the text is all whitespace. */
  lemma TrimEmptyIffAllSpace(s: string)
    ensures Trim(s) == [] <==> AllSpace(s)
  {
    if Trim(s) == [] {
      TrimRemovesOnlySpace(s);
      var pre, post :| AllSpace(pre) && AllSpace(post) && s == pre + Trim(s) + post;
      assert s == pre + post;
      forall i | 0 <= i < |s| ensures IsSpace(s[i]) {
        if i >= |pre| { assert s[i] == post[i - |pre|]; }
      }
    }
    if AllSpace(s) {
      TrimStartSkipsSpace(s, []);
      assert s + [] == s;
    }
  }

  /** Trimming twice is trimming once. */
  lemma TrimIdempotent(s: string)
    ensures Trim(Trim(s)) == Trim(s)
  {
    TrimmedIsFixedPoint(Trim(s));
  }

  // ---------------------------------------------------------------------
  // Response cleanup
  // ---------------------------------------------------------------------

  const Fence: string := "```"
  const JsonFence: string := "```json"

  predicate EndsWithFence(s: string) {
    |s| >= |Fence| && s[|s| - |Fence|..] == Fence
  }

  /** `replace(/^<opener>\s*\/g, "")`: anchored at the start of the text and
      without the multiline flag, so it removes at most one opener together
      with all the whitespace that follows it. */
  function StripOpening(s: string, opener: string): (r: string)
    ensures !(opener <= s) ==> r == s
    ensures opener <= s ==> |r| <= |s| - |opener| && (r == [] || !IsSpace(r[0]))
  {
    if opener <= s then TrimStart(s[|opener|..]) else s
  }

  /** `replace(/\s*```$/g, "")`: removes a fence only when it is the very last
      characters of the text, together with the whitespace run before it. */
  function StripClosing(s: string): (r: string)
    ensures !EndsWithFence(s) ==> r == s
    ensures EndsWithFence(s) ==> |r| <= |s| - |Fence| && (r == [] || !IsSpace(r[|r| - 1]))
  {
    if EndsWithFence(s) then TrimEnd(s[..|s| - |Fence|]) else s
  }

  /** The cleanup chain applied to the model's raw text, in source order. */
  function CleanResponse(text: string): (r: string)
    ensures IsTrimmed(r)
    ensures |r| <= |text|
  {
    Trim(StripClosing(StripOpening(StripOpening(text, JsonFence), Fence)))
  }

  lemma JsonFenceIsFence(s: string)
    requires JsonFence <= s
    ensures Fence <= s
  {
    assert s[..3] == JsonFence[..3];
  }

  /** Text whose first character is not a backtick starts with no fence. */
  lemma NoOpeningFence(s: string)
    requires s != [] && s[0] != '`'
    ensures !(Fence <= s) && !(JsonFence <= s)
  {
  }

  /** Text whose last character is not a backtick ends with no fence. */
  lemma NoClosingFence(s: string)
    requires s != [] && s[|s| - 1] != '`'
    ensures !EndsWithFence(s)
  {
    if |s| >= 3 {
      assert s[|s| - 3..][2] == s[|s| - 1];
    }
  }

  /** Text that neither starts nor ends with a fence cleans to its trim. */
  lemma CleanUnfenced(text: string)
    requires !(Fence <= text) && !EndsWithFence(text)
    ensures CleanResponse(text) == Trim(text)
  {
    if JsonFence <= text { JsonFenceIsFence(text); }
  }

  lemma StripOpeningSkipsSpace(opener: string, w: string, body: string)
    requires AllSpace(w) && (body == [] || !IsSpace(body[0]))
    ensures StripOpening(opener + w + body, opener) == body
  {
    assert opener <= opener + w + body;
    assert (opener + w + body)[|opener|..] == w + body;
    TrimStartSkipsSpace(w, body);
  }

  lemma StripClosingSkipsSpace(body: string, w: string)
    requires AllSpace(w) && (body == [] || !IsSpace(body[|body| - 1]))
    ensures StripClosing(body + w + Fence) == body
  {
    var s := body + w + Fence;
    assert s[|s| - |Fence|..] == Fence;
    assert s[..|s| - |Fence|] == body + w;
    TrimEndSkipsSpace(body, w);
  }

  /** The cleanup chain, one stage at a time. */
  lemma CleanStages(text: string, afterOpen: string, afterClose: string, r: string)
    requires StripOpening(StripOpening(text, JsonFence), Fence) == afterOpen
    requires StripClosing(afterOpen) == afterClose
    requires Trim(afterClose) == r
    ensures CleanResponse(text) == r
  {
  }

  /** A "```json" opener and the whitespace after it are removed, and what
      follows is not taken for a second opener. */
  lemma JsonOpenerRemoved(w: string, rest: string)
    requires AllSpace(w) && rest != [] && rest[0] != '`' && !IsSpace(rest[0])
    ensures StripOpening(StripOpening(JsonFence + w + rest, JsonFence), Fence) == rest
  {
    StripOpeningSkipsSpace(JsonFence, w, rest);
    NoOpeningFence(rest);
  }

  /** A bare "```" opener and the whitespace after it are removed, provided
      what follows does not start with "json". */
  lemma PlainOpenerRemoved(w: string, rest: string)
    requires AllSpace(w) && rest != [] && rest[0] != '`' && rest[0] != 'j' && !IsSpace(rest[0])
    ensures StripOpening(StripOpening(Fence + w + rest, JsonFence), Fence) == rest
  {
    var text := Fence + w + rest;
    assert !(JsonFence <= text) by {
      assert text[3] == if w == [] then rest[0] else w[0];
      assert w != [] ==> IsSpace(w[0]);
    }
    StripOpeningSkipsSpace(Fence, w, rest);
    NoOpeningFence(rest);
  }

  /** Text that starts with neither opener passes the first two stages unchanged. */
  lemma NoOpenerKept(s: string)
    requires s != [] && s[0] != '`'
    ensures StripOpening(StripOpening(s, JsonFence), Fence) == s
  {
    NoOpeningFence(s);
  }

  /** A fence holding only whitespace cleans to nothing. */
  lemma EmptyJsonFence(w: string)
    requires AllSpace(w)
    ensures CleanResponse(JsonFence + w + Fence) == []
  {
    assert StripOpening(JsonFence + w + Fence, JsonFence) == Fence by {
      StripOpeningSkipsSpace(JsonFence, w, Fence);
    }
    assert StripOpening(Fence, Fence) == [] by {
      assert Fence + [] + [] == Fence;
      StripOpeningSkipsSpace(Fence, [], []);
    }
    CleanStages(JsonFence + w + Fence, [], [], []);
  }

  /** A closing fence and the whitespace before it are removed from a
      trimmed body, which trimming then leaves alone. */
  lemma ClosingRemoved(body: string, w: string)
    requires AllSpace(w) && IsTrimmed(body)
    ensures StripClosing(body + w + Fence) == body && Trim(body) == body
  {
    StripClosingSkipsSpace(body, w);
    TrimmedIsFixedPoint(body);
  }

  /** A reply wrapped in a "```json" fence, with any whitespace around the
      body, cleans to the same text as the bare body. */
  lemma {:induction false} CleanJsonFenced(w1: string, body: string, w2: string)
    requires AllSpace(w1) && AllSpace(w2) && IsTrimmed(body)
    requires body == [] || body[0] != '`'
    requires !EndsWithFence(body)
    ensures CleanResponse(JsonFence + w1 + body + w2 + Fence) == body
    ensures CleanResponse(body) == body
  {
    if body == [] {
      assert JsonFence + w1 + body + w2 + Fence == JsonFence + (w1 + w2) + Fence;
      assert AllSpace(w1 + w2);
      EmptyJsonFence(w1 + w2);
    } else {
      var rest := body + w2 + Fence;
      assert JsonFence + w1 + body + w2 + Fence == JsonFence + w1 + rest;
      assert rest[0] == body[0];
      JsonOpenerRemoved(w1, rest);
      ClosingRemoved(body, w2);
      CleanStages(JsonFence + w1 + rest, rest, body, body);
      NoOpeningFence(body);
    }
    CleanUnfenced(body);
    TrimmedIsFixedPoint(body);
  }

  /** The same for a bare "```" fence, when what follows the fence does not
      begin with "json" (that would make it the other opener). */
  lemma {:induction false} CleanPlainFenced(w1: string, body: string, w2: string)
    requires AllSpace(w1) && AllSpace(w2) && IsTrimmed(body)
    requires body != [] && body[0] != '`' && body[0] != 'j'
    requires !EndsWithFence(body)
    ensures CleanResponse(Fence + w1 + body + w2 + Fence) == body
  {
    var rest := body + w2 + Fence;
    assert Fence + w1 + body + w2 + Fence == Fence + w1 + rest;
    assert rest[0] == body[0];
    PlainOpenerRemoved(w1, rest);
    ClosingRemoved(body, w2);
    CleanStages(Fence + w1 + rest, rest, body, body);
  }

  /** Trimming removes a single trailing newline from text that is
      otherwise trimmed. */
  lemma TrimDropsNewline(kept: string)
    requires IsTrimmed(kept) && kept != []
    ensures Trim(kept + "\n") == kept
  {
    var tail := kept + "\n";
    assert tail[0] == kept[0];
    assert TrimStart(tail) == tail;
    assert AllSpace("\n");
    TrimEndSkipsSpace(kept, "\n");
    TrimmedIsFixedPoint(kept);
  }

  /** A closing fence followed by a newline is not at the very end of the
      text, so it survives the cleanup. */
  lemma {:induction false} FenceBeforeTrailingNewlineSurvives(body: string)
    requires IsTrimmed(body) && body != [] && body[0] != '`'
    ensures CleanResponse(JsonFence + "\n" + body + "\n" + Fence + "\n") == body + "\n" + Fence
  {
    var kept := body + "\n" + Fence;
    var tail := kept + "\n";
    assert JsonFence + "\n" + body + "\n" + Fence + "\n" == JsonFence + "\n" + tail;
    assert tail[0] == body[0] && kept[0] == body[0];
    assert kept[|kept| - 1] == '`';
    assert AllSpace("\n");
    JsonOpenerRemoved("\n", tail);
    NoClosingFence(tail);
    TrimDropsNewline(kept);
    CleanStages(JsonFence + "\n" + tail, tail, tail, kept);
  }

  /** Only the last fence is removed: a doubled closing fence leaves one. */
  lemma {:induction false} OnlyOneClosingFenceRemoved(body: string)
    requires IsTrimmed(body) && body != [] && body[0] != '`'
    ensures CleanResponse(body + Fence + Fence) == body + Fence
  {
    var kept := body + Fence;
    var text := kept + Fence;
    assert text[0] == body[0] && kept[0] == body[0];
    assert kept[|kept| - 1] == '`';
    NoOpenerKept(text);
    assert StripClosing(text) == kept by {
      assert text[|text| - 3..] == Fence;
      assert text[..|text| - 3] == kept;
      assert TrimEnd(kept) == kept;
    }
    TrimmedIsFixedPoint(kept);
    CleanStages(text, text, kept, kept);
  }

  // ---------------------------------------------------------------------
  // The parsed record
  // ---------------------------------------------------------------------

  datatype Skill = Skill(id: int, name: string, rating: int)

  datatype Experience = Experience(
    id: int, title: string, companyName: string, city: string, state: string,
    startDate: string, endDate: string, currentlyWorking: Option<bool>, workSummary: string)

  datatype Education = Education(
    id: int, universityName: string, degree: string, major: string,
    startDate: string, endDate: string, description: string)

  /** The record the model is asked for. The parse result is cast to this
      shape without validation, so every field may be missing (`None`). */
  datatype ParsedResume = ParsedResume(
    firstName: Option<string>, lastName: Option<string>, jobTitle: Option<string>,
    address: Option<string>, phone: Option<string>, email: Option<string>,
    summary: Option<string>,
    skills: Option<seq<Skill>>, experience: Option<seq<Experience>>,
    education: Option<seq<Education>>)

  // ---------------------------------------------------------------------
  // One extraction
  // ---------------------------------------------------------------------

  const ModelName: string := "gemini-2.0-flash"
  const PdfMimeType: string := "application/pdf"

  /** One call to the text-completion model. Its instruction text is a fixed
      constant, so it is not a field: no request can differ in it. */
  datatype ModelRequest = ModelRequest(model: string, mimeType: string, data: seq<bv8>)

  /** The requests one invocation sent, and what it returned (`None` is `null`). */
  datatype Extraction = Extraction(requests: seq<ModelRequest>, result: Option<ParsedResume>)

  /** `parseResumeWithGemini(fileId)`. The collaborators are parameters:
      `download` fetches the stored file's view URL (`None`: the fetch or the
      body read failed), `generate` is the model (`None`: the call threw) and
      `parseJson` is `JSON.parse` (`None`: it threw). */
  function ParseResumeWithGemini(
    fileId: string,
    download: string -> Option<seq<bv8>>,
    generate: ModelRequest -> Option<string>,
    parseJson: string -> Option<ParsedResume>): (r: Extraction)
    ensures |r.requests| <= 1
    ensures |r.requests| == 1 <==> download(fileId).Some?
    ensures forall q :: q in r.requests ==>
              q == ModelRequest(ModelName, PdfMimeType, download(fileId).value)
    ensures r.result.Some? ==>
              && |r.requests| == 1
              && generate(r.requests[0]).Some?
              && r.result == parseJson(CleanResponse(generate(r.requests[0]).value))
    ensures download(fileId).Some?
            && generate(ModelRequest(ModelName, PdfMimeType, download(fileId).value)).Some?
            ==> r.result == parseJson(CleanResponse(
                  generate(ModelRequest(ModelName, PdfMimeType, download(fileId).value)).value))
  {
    match download(fileId)
    case None => Extraction([], None)
    case Some(bytes) =>
      var request := ModelRequest(ModelName, PdfMimeType, bytes);
      match generate(request)
      case None => Extraction([request], None)
      case Some(text) => Extraction([request], parseJson(CleanResponse(text)))
  }

  /** Every failing stage ends in `null`: a failed download, a failed model
      call, or cleaned text that does not parse. */
  lemma ExtractionNullOnFailure(
    fileId: string,
    download: string -> Option<seq<bv8>>,
    generate: ModelRequest -> Option<string>,
    parseJson: string -> Option<ParsedResume>)
    ensures var r := ParseResumeWithGemini(fileId, download, generate, parseJson);
            && (download(fileId).None? ==> r.result.None?)
            && (download(fileId).Some? ==>
                  var reply := generate(ModelRequest(ModelName, PdfMimeType, download(fileId).value));
                  && (reply.None? ==> r.result.None?)
                  && (reply.Some? && parseJson(CleanResponse(reply.value)).None? ==> r.result.None?))
  {
  }

  /** A reply wrapped in a "```json" fence yields the same record as the same
      reply without the fence. */
  lemma ExtractionIgnoresFence(
    fileId: string,
    download: string -> Option<seq<bv8>>,
    fenced: ModelRequest -> Option<string>,
    bare: ModelRequest -> Option<string>,
    parseJson: string -> Option<ParsedResume>,
    w1: string, body: string, w2: string)
    requires AllSpace(w1) && AllSpace(w2) && IsTrimmed(body)
    requires (body == [] || body[0] != '`') && !EndsWithFence(body)
    requires forall q :: fenced(q) == Some(JsonFence + w1 + body + w2 + Fence) && bare(q) == Some(body)
    ensures ParseResumeWithGemini(fileId, download, fenced, parseJson)
         == ParseResumeWithGemini(fileId, download, bare, parseJson)
  {
    if download(fileId).Some? {
      var q := ModelRequest(ModelName, PdfMimeType, download(fileId).value);
      var reply := JsonFence + w1 + body + w2 + Fence;
      assert CleanResponse(reply) == CleanResponse(body) by {
        CleanJsonFenced(w1, body, w2);
      }
      assert fenced(q) == Some(reply) && bare(q) == Some(body);
      assert ParseResumeWithGemini(fileId, download, fenced, parseJson)
          == Extraction([q], parseJson(CleanResponse(reply)));
      assert ParseResumeWithGemini(fileId, download, bare, parseJson)
          == Extraction([q], parseJson(CleanResponse(body)));
    }
  }
}
