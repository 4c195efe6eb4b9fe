/** The post-processing half of `generateBookCard`: taking the model's reply
    text, removing a Markdown code fence, the fail-closed shape check on the
    decoded value, and the re-wrapping of every failure into one `Error`.
    The model call itself is an input (`ModelResponse`) and `JSON.parse` is a
    parameter (`parse`). */
module GeminiService {
  import opened Wrappers
  import opened JsText
  import opened Json
  import opened Types

  /** A value thrown inside `generateBookCard`: an `Error` instance with its
      message, or any other value. */
  datatype Thrown = Error(message: string) | NonError

  /** What the model call produced: the text at
      `candidates[0].content.parts[0].text` (`None` when a link of that chain
      is missing), or the value the call threw. */
  datatype ModelResponse = Responded(text: Option<string>) | CallThrew(thrown: Thrown)

  /** What `JSON.parse` made of the payload. */
  datatype ParseOutcome = Parsed(value: JsonValue) | SyntaxError(message: string)

  /** How the promise `generateBookCard` returns settles. */
  datatype Completion = Returned(value: JsonValue) | Threw(thrown: Thrown)

  const Fence: string := "```"
  const WrapPrefix: string := "Failed to generate card from AI: "
  const UnknownErrorMessage: string :=
    "An unknown error occurred " + "while generating the book card."
  const IncompleteMessage: string :=
    "AI response is missing required fields or detailed analysis is incomplete."
  /** The `TypeError` a JavaScript engine (V8 wording) raises for `null.title`. */
  const NullAccessMessage: string := "Cannot read properties of null (reading 'title')"

  // ---------------------------------------------------------------------------
  // Reply text and code fences

  /** `text?.trim() || ""`: the trimmed reply, or the empty string when there
      is none. */
  function ReplyText(text: Option<string>): (r: string)
    ensures IsTrimmed(r)
    ensures r == "" <==> text.None? || AllSpace(text.value)
  {
    match text
    case None => ""
    case Some(s) => TrimBlank(s); Trim(s)
  }

  /** The anchors of `/^```(\w*)?\s*\n?(.*?)\n?\s*```$/s`: three backticks at
      the start and three more at the very end, not overlapping. */
  predicate HasFences(s: string) {
    |s| >= 6 && s[..3] == Fence && s[|s| - 3..] == Fence
  }

  /** The text between the two fences. */
  function FenceInner(s: string): string
    requires HasFences(s)
  {
    s[3..|s| - 3]
  }

  /** The inner text `u` matches `(\w*)?\s*\n?(.*?)\n?\s*` as `w` word
      characters, `k` white-space characters, the captured `body`, and white
      space up to the end (`\n?\s*` and `\s*\n?` both denote runs of white
      space, as `\n` is white space). */
  ghost predicate InnerMatch(u: string, w: nat, k: nat, body: string) {
    && w + k + |body| <= |u|
    && (forall i :: 0 <= i < w ==> IsWordChar(u[i]))
    && AllSpace(u[w..w + k])
    && body == u[w + k..w + k + |body|]
    && AllSpace(u[w + k + |body|..])
  }

  /** Where group 2 starts: after the longest run of word characters and the
      longest run of white space that follows it. */
  function BodyStart(u: string): (start: nat)
    ensures start <= |u|
  {
    var w := LeadingWordChars(u);
    w + LeadingSpaces(u[w..])
  }

  /** Group 2 for the inner text `u`: from `BodyStart(u)` up to the trailing
      white space. */
  function InnerBody(u: string): (b: string)
    ensures IsTrimmed(b)
    ensures BodyStart(u) + |b| <= |u|
    ensures b == u[BodyStart(u)..BodyStart(u) + |b|]
  {
    var b := TrimEnd(u[BodyStart(u)..]);
    assert b != [] ==> b[0] == u[BodyStart(u)];
    b
  }

  /** Group 2 of the fence pattern, or `None` when `s` does not match it. */
  function FenceBody(s: string): (r: Option<string>)
    ensures r.Some? <==> HasFences(s)
    ensures r.Some? ==> IsTrimmed(r.value)
  {
    if HasFences(s) then Some(InnerBody(FenceInner(s))) else None
  }

  lemma InnerMatchOfSlices(u: string, w: nat, k: nat, body: string)
    requires w + k <= |u|
    requires forall i :: 0 <= i < w ==> IsWordChar(u[i])
    requires k <= |u[w..]| && AllSpace(u[w..][..k])
    requires |body| <= |u[w + k..]| && body == u[w + k..][..|body|]
    requires AllSpace(u[w + k..][|body|..])
    ensures InnerMatch(u, w, k, body)
  {
    assert u[w..][..k] == u[w..w + k];
    assert u[w + k..][..|body|] == u[w + k..w + k + |body|];
    assert u[w + k..][|body|..] == u[w + k + |body|..];
  }

  /** `InnerBody` is the body of a match of the pattern. */
  lemma InnerBodyMatches(u: string)
    ensures InnerMatch(u, LeadingWordChars(u), LeadingSpaces(u[LeadingWordChars(u)..]), InnerBody(u))
  {
    var w0 := LeadingWordChars(u);
    var k0 := LeadingSpaces(u[w0..]);
    InnerMatchOfSlices(u, w0, k0, TrimEnd(u[w0 + k0..]));
  }

  /** Among all matches of the pattern, the one `InnerBody` describes is the
      first a backtracking matcher tries: `\w*` and `\s*` are greedy, so the
      longest runs come first, and `.*?` is lazy, so the shortest body comes
      first. Group 2 is therefore `InnerBody`. */
  lemma InnerBodyIsFirstMatch(u: string, w: nat, k: nat, body: string)
    requires InnerMatch(u, w, k, body)
    ensures w <= LeadingWordChars(u)
    ensures w == LeadingWordChars(u) ==> k <= LeadingSpaces(u[w..])
    ensures w == LeadingWordChars(u) && k == LeadingSpaces(u[w..]) ==> |InnerBody(u)| <= |body|
  {
    WordRunBound(u, w);
    if w == LeadingWordChars(u) {
      assert u[w..][..k] == u[w..w + k];
      SpaceRunBound(u[w..], k);
      if k == LeadingSpaces(u[w..]) {
        assert body == u[w + k..][..|body|];
        assert u[w + k..][|body|..] == u[w + k + |body|..];
        ShortestBody(u[w + k..], body);
      }
    }
  }

  /** The greedy `\w*` takes the longest run of word characters. */
  lemma WordRunBound(u: string, w: nat)
    requires w <= |u|
    requires forall i :: 0 <= i < w ==> IsWordChar(u[i])
    ensures w <= LeadingWordChars(u)
  {
    var w0 := LeadingWordChars(u);
    if w0 < |u| {
      assert !IsWordChar(u[w0]);
    }
  }

  /** The greedy `\s*` takes the longest run of white space. */
  lemma SpaceRunBound(v: string, k: nat)
    requires k <= |v| && AllSpace(v[..k])
    ensures k <= LeadingSpaces(v)
  {
    var k0 := LeadingSpaces(v);
    assert forall i :: 0 <= i < k ==> IsSpace(v[i]) by {
      forall i | 0 <= i < k ensures IsSpace(v[i]) {
        assert v[i] == v[..k][i];
      }
    }
    if k0 < |v| {
      assert !IsSpace(v[k0]);
    }
  }

  /** The lazy `.*?` stops at the trailing white space: any prefix of `t`
      followed only by white space is at least as long as `TrimEnd(t)`. */
  lemma ShortestBody(t: string, body: string)
    requires |body| <= |t| && body == t[..|body|]
    requires AllSpace(t[|body|..])
    ensures |TrimEnd(t)| <= |body|
  {
    var b := TrimEnd(t);
    assert forall j :: |body| <= j < |t| ==> IsSpace(t[j]) by {
      forall j | |body| <= j < |t| ensures IsSpace(t[j]) {
        assert t[j] == t[|body|..][j - |body|];
      }
    }
    if b != [] {
      assert b[|b| - 1] == t[|b| - 1];
    }
  }

  /** Lines 50-55: when the pattern matches and group 2 is not empty, the
      payload becomes group 2, trimmed; otherwise it is left as it is. */
  function StripFences(s: string): (r: string)
    ensures IsTrimmed(s) ==> IsTrimmed(r)
    ensures HasFences(s) && FenceBody(s).value != "" ==> r == FenceBody(s).value
    ensures !(HasFences(s) && FenceBody(s).value != "") ==> r == s
  {
    var m := FenceBody(s);
    if m.Some? && m.value != "" then
      TrimOfTrimmed(m.value);
      Trim(m.value)
    else s
  }

  /** The payload handed to `JSON.parse` (lines 48-55). */
  function Payload(text: Option<string>): (r: string)
    ensures IsTrimmed(r)
  {
    StripFences(ReplyText(text))
  }

  /** Trimming group 2 (line 54) never changes it: the pattern already leaves
      the surrounding white space outside the group. */
  lemma FenceBodyTrimIsIdentity(s: string)
    requires HasFences(s)
    ensures Trim(FenceBody(s).value) == FenceBody(s).value
  {
    TrimOfTrimmed(FenceBody(s).value);
  }

  /** A trimmed payload without the fence anchors reaches the parser as it is. */
  lemma StripUnfenced(s: string)
    requires !HasFences(s)
    ensures StripFences(s) == s
  {
  }

  /** A missing reply, or one that is only white space, leaves the empty
      string as the payload (and `JSON.parse("")` throws). */
  lemma {:induction false} EmptyReplyPayload(text: Option<string>)
    requires text.Some? ==> AllSpace(text.value)
    ensures Payload(text) == ""
  {
    if text.Some? {
      TrimBlank(text.value);
    }
  }

  /** A reply whose trimmed text lacks the fence anchors is parsed exactly as
      trimmed. */
  lemma UnfencedPayload(s: string)
    requires !HasFences(Trim(s))
    ensures Payload(Some(s)) == Trim(s)
  {
  }

  /** Round trip: fencing a trimmed, non-empty JSON text as a `json` block
      and stripping the fence gives the text back. */
  lemma StripJsonBlock(b: string)
    requires b != [] && IsTrimmed(b)
    ensures StripFences(Fence + "json\n" + b + "\n" + Fence) == b
  {
    var s := Fence + "json\n" + b + "\n" + Fence;
    assert s[..3] == Fence && s[|s| - 3..] == Fence;
    var u := FenceInner(s);
    assert u == "json\n" + b + "\n";
    assert u == "json" + ("\n" + (b + "\n"));
    assert LeadingWordChars(u) == 4 by {
      assert u[4] == '\n';
    }
    assert u[4..] == "\n" + (b + "\n");
    LeadingSpacesOfPadded("\n", b + "\n");
    assert u[BodyStart(u)..] == b + "\n";
    TrailingSpacesOfPadded(b, "\n");
    assert FenceBody(s) == Some(b);
    TrimOfTrimmed(b);
  }

  /** Round trip for a fence with no language tag: it needs a body that does
      not begin with a word character, as `\w*` would otherwise take the
      body's first word for a language tag. */
  lemma StripBareBlock(b: string)
    requires b != [] && IsTrimmed(b) && !IsWordChar(b[0])
    ensures StripFences(Fence + b + Fence) == b
  {
    var s := Fence + b + Fence;
    assert s[..3] == Fence && s[|s| - 3..] == Fence;
    var u := FenceInner(s);
    assert u == b;
    assert u[LeadingWordChars(u)..] == b;
    LeadingSpacesOfPadded("", b);
    assert "" + b == b;
    assert BodyStart(u) == 0;
    TrailingSpacesOfPadded(b, "");
    assert b + "" == b;
    assert FenceBody(s) == Some(b);
    TrimOfTrimmed(b);
  }

  /** The body must be captured non-empty for the fence to be removed:
      a fenced tag with nothing after it stays as it is. */
  lemma EmptyFenceKept()
    ensures StripFences("```json```") == "```json```"
  {
    var s := "```json```";
    assert s[..3] == Fence && s[|s| - 3..] == Fence;
    var u := FenceInner(s);
    assert u == "json";
    assert LeadingWordChars(u) == 4;
    assert u[4..] == [];
    assert FenceBody(s) == Some("");
  }

  // ---------------------------------------------------------------------------
  // Shape check

  /** Lines 60-68, on a value that is not `null`: each of `title`, `summary`,
      `takeaways`, `quote`, `themeColor` and `detailedAnalysis` is truthy,
      and `detailedAnalysis` is an array of at least three entries. */
  predicate HasRequiredFields(v: JsonValue)
    requires !v.Null?
  {
    && Truthy(Member(v, "title"))
    && Truthy(Member(v, "summary"))
    && Truthy(Member(v, "takeaways"))
    && Truthy(Member(v, "quote"))
    && Truthy(Member(v, "themeColor"))
    && Truthy(Member(v, "detailedAnalysis"))
    && IsArray(Member(v, "detailedAnalysis"))
    && |Member(v, "detailedAnalysis").value.items| >= 3
  }

  /** The value passes the shape check without throwing. Only an object
      with an analysis array of three or more entries can pass. */
  predicate Accepts(v: JsonValue): (ok: bool)
    ensures ok ==> v.Obj? && "detailedAnalysis" in v.fields
    ensures ok ==> && "title" in v.fields && "summary" in v.fields && "takeaways" in v.fields
                   && "quote" in v.fields && "themeColor" in v.fields
    ensures ok ==> v.fields["detailedAnalysis"].Arr? && |v.fields["detailedAnalysis"].items| >= 3
  {
    !v.Null? && HasRequiredFields(v)
  }

  /** What the shape check throws, if anything: reading a property of `null`
      throws a `TypeError` before any test is made; a failed test throws the
      fixed incomplete-response error (line 70). */
  function CheckRecord(v: JsonValue): (r: Option<Thrown>)
    ensures r.None? <==> Accepts(v)
    ensures r.Some? ==> r.value.Error?
    ensures v.Null? ==> r == Some(Error(NullAccessMessage))
    ensures !v.Null? && !Accepts(v) ==> r == Some(Error(IncompleteMessage))
  {
    if v.Null? then Some(Error(NullAccessMessage))
    else if !HasRequiredFields(v) then Some(Error(IncompleteMessage))
    else None
  }

  /** On a reply of the declared shape, the check accepts exactly when
      `title`, `summary`, `quote` and `themeColor` are non-empty and there
      are at least three analysis entries: `author` is never looked at, and
      `takeaways`, being an array, passes even when empty. */
  lemma CardAcceptance(c: BookCardData)
    ensures Accepts(ToJson(c)) <==>
      && c.title != ""
      && c.summary != ""
      && c.quote != ""
      && c.themeColor != ""
      && |c.detailedAnalysis| >= 3
  {
    var v := ToJson(c);
    assert Member(v, "title") == Some(Str(c.title));
    assert Member(v, "summary") == Some(Str(c.summary));
    assert Member(v, "takeaways") == Some(StrArray(c.takeaways));
    assert Member(v, "quote") == Some(Str(c.quote));
    assert Member(v, "themeColor") == Some(Str(c.themeColor));
    assert Member(v, "detailedAnalysis") == Some(StrArray(c.detailedAnalysis));
  }

  /** Whatever `author` holds, or whether it is there at all, the verdict of
      the check is the same. */
  lemma AuthorIgnored(fields: map<string, JsonValue>, author: JsonValue)
    ensures Accepts(Obj(fields["author" := author])) == Accepts(Obj(fields - {"author"}))
  {
  }
  /** An object missing any of the six checked keys is rejected with the
      incomplete-response error, whatever else it holds. */
  lemma MissingFieldRejected(fields: map<string, JsonValue>, key: string)
    requires key in {"title", "summary", "takeaways", "quote", "themeColor", "detailedAnalysis"}
    ensures !Accepts(Obj(fields - {key}))
    ensures CheckRecord(Obj(fields - {key})) == Some(Error(IncompleteMessage))
  {
  }


  // ---------------------------------------------------------------------------
  // Failures

  /** Lines 77-80: an `Error` keeps its message behind a fixed prefix; any
      other thrown value becomes the fixed unknown-error message. */
  function WrapError(t: Thrown): (r: Thrown)
    ensures r.Error? && IsServiceMessage(r.message)
    ensures t.Error? ==> |r.message| >= |WrapPrefix| && r.message[..|WrapPrefix|] == WrapPrefix
    ensures t.Error? ==> r.message[|WrapPrefix|..] == t.message
    ensures t.NonError? ==> r.message == UnknownErrorMessage
  {
    match t
    case Error(m) => Error(WrapPrefix + m)
    case NonError => Error(UnknownErrorMessage)
  }

  /** The messages the service can fail with. */
  predicate IsServiceMessage(m: string) {
    (|m| >= |WrapPrefix| && m[..|WrapPrefix|] == WrapPrefix) || m == UnknownErrorMessage
  }

  /** The two kinds of wrapped failure can be told apart by their messages,
      and the original message of an `Error` can be recovered. */
  lemma WrapErrorInjective(t1: Thrown, t2: Thrown)
    requires WrapError(t1) == WrapError(t2)
    ensures t1 == t2
  {
    assert WrapError(t1).message[0] == if t1.Error? then 'F' else 'A';
    assert WrapError(t2).message[0] == if t2.Error? then 'F' else 'A';
    if t1.Error? && t2.Error? {
      assert t1.message == WrapError(t1).message[|WrapPrefix|..];
    }
  }

  // ---------------------------------------------------------------------------
  // The request

  /** `generateBookCard` from the moment the model has answered (lines 47-80):
      the reply text is trimmed and un-fenced, parsed, shape-checked and
      returned unchanged; every failure on the way, including one of the
      call itself, is re-thrown as a single wrapped `Error`. */
  method GenerateBookCard(response: ModelResponse, parse: string -> ParseOutcome)
    returns (c: Completion)
    ensures c.Threw? ==> c.thrown.Error? && IsServiceMessage(c.thrown.message)
    ensures c.Returned? ==> Accepts(c.value)
    ensures c.Returned? <==>
      response.Responded? && parse(Payload(response.text)).Parsed?
      && Accepts(parse(Payload(response.text)).value)
    ensures c.Returned? ==> c.value == parse(Payload(response.text)).value
    ensures response.CallThrew? ==> c == Threw(WrapError(response.thrown))
    ensures response.Responded? && parse(Payload(response.text)).SyntaxError? ==>
      c == Threw(Error(WrapPrefix + parse(Payload(response.text)).message))
    ensures response.Responded? && parse(Payload(response.text)) == Parsed(Null) ==>
      c == Threw(Error(WrapPrefix + NullAccessMessage))
    ensures (response.Responded? && parse(Payload(response.text)).Parsed?
             && !parse(Payload(response.text)).value.Null?
             && !Accepts(parse(Payload(response.text)).value)) ==>
      c == Threw(Error(WrapPrefix + IncompleteMessage))
  {
    var failure: Option<Thrown> := None;
    var result := Null;
    match response {
      case CallThrew(t) =>
        failure := Some(t);
      case Responded(text) =>
        var jsonStr := ReplyText(text);
        var body := FenceBody(jsonStr);
        if body.Some? && body.value != "" {
          jsonStr := Trim(body.value);
        }
        match parse(jsonStr) {
          case SyntaxError(m) =>
            failure := Some(Error(m));
          case Parsed(v) =>
            failure := CheckRecord(v);
            result := v;
        }
    }
    if failure.Some? {
      c := Threw(WrapError(failure.value));
    } else {
      c := Returned(result);
    }
  }
}
