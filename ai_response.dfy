/** What `analyzeTicket` does with the agent's reply once the model call has returned
    (Backend/utils/ai.js): take the text of the first output message, cut the first
    ```` ```json ... ``` ```` block out of it if there is one, otherwise trim it, and hand
    the result to `JSON.parse`, turning a parse failure into `null`. The agent call and
    `JSON.parse` itself are outside the model: the parser is a parameter. */
module AiResponse {
  import opened JsValues
  import opened JsStrings

  /** One entry of the agent's `output` array. */
  datatype Message = Message(content: Field<string>)

  /** The agent's reply, whose `output` may be missing. */
  datatype AgentResponse = AgentResponse(output: Field<seq<Message>>)

  /** `response.output?.[0]?.content || ""`: the first message's content when it is a
      non-empty string, and the empty string in every other case. */
  function RawText(resp: AgentResponse): (raw: string)
    ensures raw != "" <==>
              resp.output.Value? && |resp.output.value| > 0 && TruthyString(resp.output.value[0].content)
    ensures raw != "" ==> resp.output.value[0].content == Value(raw)
  {
    match resp.output
    case Value(msgs) =>
      if |msgs| > 0 && msgs[0].content.Value? then msgs[0].content.value else ""
    case _ => ""
  }

  const Fence: string := "```"

  /** The opener "```json", its four letters compared case-insensitively (the `i` flag),
      starts at `p`. */
  predicate OpenerAt(s: string, p: nat)
  {
    p + 7 <= |s| && s[p..p + 3] == Fence && ToLower(s[p + 3..p + 7]) == "json"
  }

  /** A closing "```" starts at `c`. */
  predicate FenceAt(s: string, c: nat)
  {
    c + 3 <= |s| && s[c..c + 3] == Fence
  }

  /** One way the pattern /```json\s*([\s\S]*?)\s*```/i can match `s`: the opener at `p`,
      the first `\s*` over [p+7, a), the captured group over [a, b), the second `\s*`
      over [b, c) and the closing fence at `c`. */
  ghost predicate PatternMatch(s: string, p: nat, a: nat, b: nat, c: nat)
  {
    OpenerAt(s, p) && p + 7 <= a <= b <= c && FenceAt(s, c)
    && AllSpace(s[p + 7..a]) && AllSpace(s[b..c])
  }

  /** The order in which a backtracking engine tries the ways to match: the leftmost
      start first, then the longest first `\s*` (greedy), then the shortest group (lazy),
      then the longest second `\s*` (greedy). */
  ghost predicate TriedFirst(p: nat, a: nat, b: nat, c: nat, p': nat, a': nat, b': nat, c': nat)
  {
    p < p' || (p == p' && (a > a' || (a == a' && (b < b' || (b == b' && c >= c')))))
  }

  /** The match `String.prototype.match` reports: a match that is tried before every other. */
  ghost predicate ReportedMatch(s: string, p: nat, a: nat, b: nat, c: nat)
  {
    PatternMatch(s, p, a, b, c)
    && forall p': nat, a': nat, b': nat, c': nat ::
         PatternMatch(s, p', a', b', c') ==> TriedFirst(p, a, b, c, p', a', b', c')
  }

  /** The least opener position at or after `from`. */
  function FindOpener(s: string, from: nat): (r: Option<nat>)
    ensures r.Some? ==> from <= r.value && OpenerAt(s, r.value)
    ensures forall q: nat :: from <= q && (r.None? || q < r.value) ==> !OpenerAt(s, q)
    decreases |s| - from
  {
    if |s| < from + 7 then None
    else if OpenerAt(s, from) then Some(from)
    else FindOpener(s, from + 1)
  }

  /** The least closing-fence position at or after `from`. */
  function FindFence(s: string, from: nat): (r: Option<nat>)
    ensures r.Some? ==> from <= r.value && FenceAt(s, r.value)
    ensures forall q: nat :: from <= q && (r.None? || q < r.value) ==> !FenceAt(s, q)
    decreases |s| - from
  {
    if |s| < from + 3 then None
    else if FenceAt(s, from) then Some(from)
    else FindFence(s, from + 1)
  }

  /** The end of the white-space run that starts at `i`. */
  function SkipSpace(s: string, i: nat): (j: nat)
    requires i <= |s|
    ensures i <= j <= |s| && AllSpace(s[i..j])
    ensures j == |s| || !IsSpace(s[j])
    decreases |s| - i
  {
    if i < |s| && IsSpace(s[i]) then
      var j := SkipSpace(s, i + 1);
      assert s[i..j] == [s[i]] + s[i + 1..j];
      j
    else i
  }

  /** The start of the white-space run that ends at `c`, not going below `lo`. */
  function BackOverSpace(s: string, lo: nat, c: nat): (b: nat)
    requires lo <= c <= |s|
    ensures lo <= b <= c && AllSpace(s[b..c])
    ensures b == lo || !IsSpace(s[b - 1])
    decreases c - lo
  {
    if lo < c && IsSpace(s[c - 1]) then
      var b := BackOverSpace(s, lo, c - 1);
      forall i | 0 <= i < c - b ensures IsSpace(s[b..c][i]) {
        if i < c - 1 - b { assert s[b..c][i] == s[b..c - 1][i]; }
      }
      b
    else c
  }

  /** Where the pattern matched: opener, group start, group end, closing fence. */
  datatype Span = Span(p: nat, a: nat, b: nat, c: nat)

  /** `raw.match(/```json\s*([\s\S]*?)\s*```/i)`, computed directly: the first opener,
      the group starting after the white space that follows it, and ending before the
      white space in front of the first closing fence after that. */
  function FencedMatch(s: string): (m: Option<Span>)
    ensures m.Some? ==> m.value.p + 7 <= m.value.a <= m.value.b <= m.value.c <= |s|
  {
    match FindOpener(s, 0)
    case None => None
    case Some(p) =>
      var a := SkipSpace(s, p + 7);
      match FindFence(s, a)
      case None => None
      case Some(c) => Some(Span(p, a, BackOverSpace(s, a, c), c))
  }

  /** Inside a white-space run every character is white space. */
  lemma SpaceInRun(s: string, i: nat, j: nat, k: nat)
    requires i <= k < j <= |s| && AllSpace(s[i..j])
    ensures IsSpace(s[k])
  {
    assert s[i..j][k - i] == s[k];
  }

  /** Every character of a fence is a backtick. */
  lemma FenceChar(s: string, q: nat, k: nat)
    requires FenceAt(s, q) && q <= k < q + 3
    ensures s[k] == '`'
  {
    assert s[q..q + 3][k - q] == s[k];
  }

  /** The four letters of an opener are not backticks. */
  lemma OpenerLetter(s: string, p: nat, k: nat)
    requires OpenerAt(s, p) && p + 3 <= k < p + 7
    ensures s[k] != '`'
  {
    assert ToLower(s[p + 3..p + 7])[k - p - 3] == LowerChar(s[k]);
  }

  /** An opener's own text holds no other "```": a fence that starts after the opener
      `p` starts after the white space that follows it. */
  lemma FenceBeyondOpener(s: string, p: nat, q: nat)
    requires OpenerAt(s, p) && p < q && FenceAt(s, q)
    ensures SkipSpace(s, p + 7) <= q
  {
    var a := SkipSpace(s, p + 7);
    if q < p + 7 {
      var k := if q < p + 3 then p + 3 else q;
      OpenerLetter(s, p, k);
      FenceChar(s, q, k);
    } else if q < a {
      SpaceInRun(s, p + 7, a, q);
      FenceChar(s, q, q);
    }
  }

  /** A closing fence of any match starts at or after the direct computation's group start. */
  lemma MatchClosesAfterGroupStart(s: string, p: nat, p': nat, a': nat, b': nat, c': nat)
    requires FindOpener(s, 0) == Some(p)
    requires PatternMatch(s, p', a', b', c')
    ensures SkipSpace(s, p + 7) <= c' && FenceAt(s, c')
  {
    var a := SkipSpace(s, p + 7);
    if p == p' {
      if c' < a {
        SpaceInRun(s, p + 7, a, c');
        FenceChar(s, c', c');
      }
    } else {
      assert s[p'..p' + 3] == Fence;
      FenceBeyondOpener(s, p, p');
    }
  }

  /** The match the direct computation finds is tried before any other match. */
  lemma ComputedMatchTriedFirst(s: string, p: nat, p': nat, a': nat, b': nat, c': nat)
    requires FencedMatch(s).Some? && FencedMatch(s).value.p == p
    requires PatternMatch(s, p', a', b', c')
    ensures var m := FencedMatch(s).value; TriedFirst(m.p, m.a, m.b, m.c, p', a', b', c')
  {
    var m := FencedMatch(s).value;
    var a, b, c := m.a, m.b, m.c;
    MatchClosesAfterGroupStart(s, p, p', a', b', c');
    assert c <= c';
    if p == p' {
      if a < a' {
        SpaceInRun(s, p + 7, a', a);
      } else if a == a' {
        if b' < b {
          if c < c' {
            SpaceInRun(s, b', c', c);
            FenceChar(s, c, c);
          } else {
            SpaceInRun(s, b', c, b - 1);
          }
        } else if b' == b && c < c' {
          SpaceInRun(s, b, c', c);
          FenceChar(s, c, c);
        }
      }
    }
  }

  /** The direct computation finds a match exactly when the pattern matches, and then it
      finds the very match a backtracking engine reports. */
  lemma {:induction false} FencedMatchIsReported(s: string)
    ensures FencedMatch(s).None? ==> forall p: nat, a: nat, b: nat, c: nat :: !PatternMatch(s, p, a, b, c)
    ensures FencedMatch(s).Some? ==>
              var m := FencedMatch(s).value; ReportedMatch(s, m.p, m.a, m.b, m.c)
  {
    match FindOpener(s, 0)
    case None =>
    case Some(p) =>
      if FencedMatch(s).None? {
        forall p': nat, a': nat, b': nat, c': nat ensures !PatternMatch(s, p', a', b', c') {
          if PatternMatch(s, p', a', b', c') {
            MatchClosesAfterGroupStart(s, p, p', a', b', c');
          }
        }
      } else {
        var m := FencedMatch(s).value;
        assert PatternMatch(s, m.p, m.a, m.b, m.c);
        forall p': nat, a': nat, b': nat, c': nat | PatternMatch(s, p', a', b', c')
          ensures TriedFirst(m.p, m.a, m.b, m.c, p', a', b', c')
        {
          ComputedMatchTriedFirst(s, p, p', a', b', c');
        }
      }
  }

  /** The captured text never holds a "```" and has no white space at either end: the
      first `\s*` is greedy and the group is lazy. */
  lemma CaptureIsTrimmedAndFenceFree(s: string)
    requires FencedMatch(s).Some?
    ensures var m := FencedMatch(s).value;
            Trimmed(s[m.a..m.b]) && !Includes(s[m.a..m.b], Fence)
  {
    var m := FencedMatch(s).value;
    var body := s[m.a..m.b];
    IncludesIffOccurs(body, Fence);
    forall i | 0 <= i && i + 3 <= |body| ensures !OccursAt(body, Fence, i) {
      assert s[m.a + i..m.a + i + 3] == body[i..i + 3];
      assert !FenceAt(s, m.a + i);
    }
    if body != [] {
      assert body[0] == s[m.a] && body[|body| - 1] == s[m.b - 1];
    }
  }

  /** `match ? match[1] : raw.trim()`: the text handed to `JSON.parse`. */
  function JsonText(raw: string): string
  {
    match FencedMatch(raw)
    case Some(m) => raw[m.a..m.b]
    case None => Trim(raw)
  }

  /** The post-call half of `analyzeTicket`, with `parse` standing for `JSON.parse`
      (`None` when it throws). The parsed value is returned as it is: no field of it
      is checked. */
  function Analyze<J>(resp: AgentResponse, parse: string -> Option<J>): Option<J>
  {
    var raw := RawText(resp);
    if raw == "" then None else parse(JsonText(raw))
  }

  /** An empty or missing reply gives `null` and the parser is never consulted: any two
      parsers give the same answer. */
  lemma AnalyzeEmptyReply<J>(resp: AgentResponse, parse: string -> Option<J>, other: string -> Option<J>)
    requires !(resp.output.Value? && |resp.output.value| > 0 && TruthyString(resp.output.value[0].content))
    ensures Analyze(resp, parse) == None
    ensures Analyze(resp, parse) == Analyze(resp, other)
  {
  }

  /** Without a complete fenced block the parser sees the content with its surrounding
      white space removed. */
  lemma AnalyzeUnfenced<J>(resp: AgentResponse, parse: string -> Option<J>)
    requires RawText(resp) != ""
    requires forall p: nat, a: nat, b: nat, c: nat :: !PatternMatch(RawText(resp), p, a, b, c)
    ensures Analyze(resp, parse) == parse(Trim(RawText(resp)))
  {
    FencedMatchIsReported(RawText(resp));
  }

  /** With a fenced block the parser sees exactly the group of the reported match;
      everything before the opener and after the closing fence is discarded, and what
      the parser returns is the result, failure included. */
  lemma AnalyzeFenced<J>(resp: AgentResponse, parse: string -> Option<J>, p: nat, a: nat, b: nat, c: nat)
    requires ReportedMatch(RawText(resp), p, a, b, c)
    ensures Analyze(resp, parse) == parse(RawText(resp)[a..b])
    ensures Trimmed(RawText(resp)[a..b]) && !Includes(RawText(resp)[a..b], Fence)
  {
    var raw := RawText(resp);
    FencedMatchIsReported(raw);
    var m := FencedMatch(raw).value;
    assert TriedFirst(p, a, b, c, m.p, m.a, m.b, m.c);
    assert TriedFirst(m.p, m.a, m.b, m.c, p, a, b, c);
    CaptureIsTrimmedAndFenceFree(raw);
  }
}
