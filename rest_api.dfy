/**
 * The external-control backend's request handler: it asks the robot for the
 * program of an External Control node, splits it into a header preamble and a
 * program body, and keeps valid answers for two seconds per (port, robot IP).
 *
 * The Flask route, the socket round-trip to the robot, the clock and the JSON
 * text are not part of this model: the robot's answer and the current time are
 * parameters, and the JSON document is the record `JsonResponse`.
 */
module RestApi {
  import opened Wrappers
  import opened Strings

  const HeaderBegin: string := "# HEADER_BEGIN"
  const HeaderEnd: string := "# HEADER_END"
  /** How long, in seconds, a cached answer is served. */
  const CacheTtl: real := 2.0
  const StatusOk: string := "ok"

  // ---------------------------------------------------------------------------
  // Splitting a robot program into preamble and program body
  // ---------------------------------------------------------------------------

  datatype Sections = Sections(preamble: string, programNode: string)

  /**
   * The program has a header block: the first `# HEADER_END` comes after the
   * first `# HEADER_BEGIN`.
   */
  ghost predicate HasHeaderBlock(text: string) {
    exists b, e {:trigger FirstOccurrence(text, HeaderBegin, b), FirstOccurrence(text, HeaderEnd, e)} ::
      FirstOccurrence(text, HeaderBegin, b) && FirstOccurrence(text, HeaderEnd, e) && b < e
  }

  /**
   * An end marker found after a begin marker cannot overlap it: the only `#`
   * of `# HEADER_BEGIN` is its first character.
   */
  lemma MarkersDisjoint(text: string, b: int, e: int)
    requires OccursAt(text, HeaderBegin, b) && OccursAt(text, HeaderEnd, e) && b < e
    ensures b + |HeaderBegin| <= e
  {
    assert text[e] == text[e..e + |HeaderEnd|][0] == '#';
    NoHashInsideBegin(text, b);
  }

  /** After its first character, a begin marker at `b` holds no `#`. */
  lemma NoHashInsideBegin(text: string, b: int)
    requires OccursAt(text, HeaderBegin, b)
    ensures forall i :: b < i < b + |HeaderBegin| ==> text[i] != '#'
  {
    forall i | b < i < b + |HeaderBegin| ensures text[i] != '#' {
      assert text[i] == text[b..b + |HeaderBegin|][i - b];
    }
  }

  /** `preamble` starts with `# HEADER_BEGIN` and ends with a separate `# HEADER_END`. */
  predicate Framed(preamble: string) {
    && |preamble| >= |HeaderBegin| + |HeaderEnd|
    && preamble[..|HeaderBegin|] == HeaderBegin
    && preamble[|preamble| - |HeaderEnd|..] == HeaderEnd
  }

  /** Every character of `s` is a newline. */
  predicate Newlines(s: string) {
    forall i :: 0 <= i < |s| ==> s[i] == '\n'
  }

  /** `whole` is `first`, `middle` and `last` one after the other. */
  predicate Joins(whole: string, first: string, middle: string, last: string) {
    whole == first + middle + last
  }

  /**
   * The preamble sliced out of `text` between a begin marker at `b` and an end
   * marker at `e` begins with the one and ends with the other.
   */
  lemma PreambleFramed(text: string, b: int, e: int)
    requires OccursAt(text, HeaderBegin, b) && OccursAt(text, HeaderEnd, e) && b < e
    ensures b + |HeaderBegin| <= e
    ensures Framed(text[b..e + |HeaderEnd|])
  {
    MarkersDisjoint(text, b, e);
    var preamble := text[b..e + |HeaderEnd|];
    assert preamble[..|HeaderBegin|] == text[b..b + |HeaderBegin|];
    assert preamble[|preamble| - |HeaderEnd|..] == text[e..e + |HeaderEnd|];
  }

  /**
   * The two sections cut at a begin marker at `b` and an end marker at `e`:
   * the preamble runs from the begin marker through the end marker, the body
   * is the rest of the text without its leading newlines.
   */
  function CutSections(text: string, b: int, e: int): (r: Sections)
    requires OccursAt(text, HeaderBegin, b) && OccursAt(text, HeaderEnd, e) && b < e
    ensures Framed(r.preamble)
    ensures |r.programNode| <= |text| && r.programNode == text[|text| - |r.programNode|..]
    ensures |r.preamble| + |r.programNode| <= |text|
  {
    PreambleFramed(text, b, e);
    var stop := e + |HeaderEnd|;
    var tail := text[stop..];
    var body := LStrip(tail, '\n');
    SuffixOfSuffix(text, stop, body);
    Sections(text[b..stop], body)
  }

  /** A suffix of `text[stop..]` is a suffix of `text`. */
  lemma SuffixOfSuffix(text: string, stop: int, body: string)
    requires 0 <= stop <= |text| && |body| <= |text| - stop
    requires body == text[stop..][|text| - stop - |body|..]
    ensures body == text[|text| - |body|..]
  {
  }

  /**
   * `split_program_sections`: with a header block, the text is cut at the
   * first begin and end markers; otherwise the whole text is the body.
   */
  function SplitProgramSections(text: string): (r: Sections)
    ensures r.preamble != [] ==> Framed(r.preamble)
    ensures |r.programNode| <= |text| && r.programNode == text[|text| - |r.programNode|..]
    ensures |r.preamble| + |r.programNode| <= |text|
  {
    var startIdx := Find(text, HeaderBegin);
    var endIdx := Find(text, HeaderEnd);
    if startIdx != -1 && endIdx != -1 && endIdx > startIdx then
      CutSections(text, startIdx, endIdx)
    else
      Sections("", text)
  }

  /**
   * With a header block whose markers first occur at `b` and `e`: the text is
   * cut at those markers, the preamble is exactly `text[b..e + |HeaderEnd|]`,
   * the body never starts with a newline, and between the two lie only
   * newlines (`CutLayout` gives the whole layout).
   */
  lemma SplitWithHeader(text: string, b: int, e: int)
    requires FirstOccurrence(text, HeaderBegin, b) && FirstOccurrence(text, HeaderEnd, e) && b < e
    ensures b + |HeaderBegin| <= e && e + |HeaderEnd| <= |text|
    ensures SplitProgramSections(text) == CutSections(text, b, e)
    ensures var r := CutSections(text, b, e);
      var stop := e + |HeaderEnd|;
      && r.preamble == text[b..stop]
      && (r.programNode == [] || r.programNode[0] != '\n')
      && stop + |r.programNode| <= |text|
      && Newlines(text[stop..|text| - |r.programNode|])
  {
    SplitCutsAtMarkers(text, b, e);
    CutLayout(text, b, e);
  }

  /** With a header block, the splitter cuts at the first markers. */
  lemma SplitCutsAtMarkers(text: string, b: int, e: int)
    requires FirstOccurrence(text, HeaderBegin, b) && FirstOccurrence(text, HeaderEnd, e) && b < e
    ensures SplitProgramSections(text) == CutSections(text, b, e)
  {
    FindLocates(text, HeaderBegin, b);
    FindLocates(text, HeaderEnd, e);
  }

  /**
   * How the two sections of `CutSections` lie in the text: `text[b..]` is the
   * preamble, a run of newlines and the body, so nothing before the begin
   * marker reaches either section.
   */
  lemma CutLayout(text: string, b: int, e: int)
    requires OccursAt(text, HeaderBegin, b) && OccursAt(text, HeaderEnd, e) && b < e
    ensures b + |HeaderBegin| <= e
    ensures var r := CutSections(text, b, e);
      var stop := e + |HeaderEnd|;
      && r.preamble == text[b..stop]
      && (r.programNode == [] || r.programNode[0] != '\n')
      && stop + |r.programNode| <= |text|
      && Newlines(text[stop..|text| - |r.programNode|])
      && Joins(text[b..], r.preamble, text[stop..|text| - |r.programNode|], r.programNode)
  {
    MarkersDisjoint(text, b, e);
    CutSectionsParts(text, b, e);
    var stop := e + |HeaderEnd|;
    StrippedLayout(text, stop, text[b..stop], LStrip(text[stop..], '\n'), b);
  }

  /** The two parts `CutSections` is made of. */
  lemma CutSectionsParts(text: string, b: int, e: int)
    requires OccursAt(text, HeaderBegin, b) && OccursAt(text, HeaderEnd, e) && b < e
    ensures e + |HeaderEnd| <= |text|
    ensures CutSections(text, b, e) == Sections(text[b..e + |HeaderEnd|], LStrip(text[e + |HeaderEnd|..], '\n'))
  {
  }

  /** Splitting `text[b..]` at `stop`, when `text[stop..]` is a gap followed by `last`. */
  lemma JoinsAt(text: string, b: int, stop: int, cut: int, last: string)
    requires 0 <= b <= stop <= cut <= |text| && text[stop..] == text[stop..cut] + last
    ensures Joins(text[b..], text[b..stop], text[stop..cut], last)
  {
    assert text[b..] == text[b..stop] + text[stop..];
  }

  /**
   * Removing the leading newlines of `text[stop..]` leaves a suffix of the
   * text; what was removed is a run of newlines, and `text[b..]` is the
   * slice before `stop`, that run and the suffix.
   */
  lemma StrippedLayout(text: string, stop: int, first: string, body: string, b: int)
    requires 0 <= b <= stop <= |text| && first == text[b..stop] && body == LStrip(text[stop..], '\n')
    ensures body == [] || body[0] != '\n'
    ensures stop + |body| <= |text|
    ensures Newlines(text[stop..|text| - |body|])
    ensures Joins(text[b..], first, text[stop..|text| - |body|], body)
  {
    var tail := text[stop..];
    var gap := text[stop..|text| - |body|];
    assert gap == tail[..|tail| - |body|];
    assert body == tail[|tail| - |body|..];
    assert tail == gap + body;
    JoinsAt(text, b, stop, |text| - |body|, body);
  }

  /** Without a header block the preamble is empty and the body is the whole text. */
  lemma SplitWithoutHeader(text: string)
    requires !HasHeaderBlock(text)
    ensures SplitProgramSections(text) == Sections("", text)
  {
    FindSeesHeader(text);
  }

  /** When both `find` calls succeed in order, the text has a header block. */
  lemma FindSeesHeader(text: string)
    ensures var startIdx, endIdx := Find(text, HeaderBegin), Find(text, HeaderEnd);
      startIdx != -1 && endIdx != -1 && endIdx > startIdx ==> HasHeaderBlock(text)
  {
    var startIdx, endIdx := Find(text, HeaderBegin), Find(text, HeaderEnd);
    assert startIdx != -1 && endIdx != -1 ==>
      FirstOccurrence(text, HeaderBegin, startIdx) && FirstOccurrence(text, HeaderEnd, endIdx);
  }

  /** A preamble is produced exactly when the text has a header block. */
  lemma PreambleIffHeader(text: string)
    ensures SplitProgramSections(text).preamble != [] <==> HasHeaderBlock(text)
  {
    if HasHeaderBlock(text) {
      var b, e :| FirstOccurrence(text, HeaderBegin, b) && FirstOccurrence(text, HeaderEnd, e) && b < e;
      SplitWithHeader(text, b, e);
    } else {
      SplitWithoutHeader(text);
    }
  }

  // ---------------------------------------------------------------------------
  // The response document
  // ---------------------------------------------------------------------------

  /** The JSON object the handler sends: `preamble`, `program_node`, `valid`, `status`. */
  datatype JsonResponse = JsonResponse(preamble: string, programNode: string, valid: bool, status: string)

  /**
   * `build_json_response`: the given validity and status, with the program
   * split into its two sections.
   */
  function BuildJsonResponse(program: string, valid: bool, statusText: string): (r: JsonResponse)
    ensures r.valid == valid && r.status == statusText
    ensures Sections(r.preamble, r.programNode) == SplitProgramSections(program)
    ensures r.preamble != [] <==> HasHeaderBlock(program)
  {
    PreambleIffHeader(program);
    var sections := SplitProgramSections(program);
    JsonResponse(sections.preamble, sections.programNode, valid, statusText)
  }

  /** What the robot answers when asked for the program: its text, or the exception raised. */
  datatype RobotReply = Program(text: string) | Failure(message: string)

  /** The three values the `try`/`except` block of `read_params` sets. */
  datatype Attempt = Attempt(program: string, valid: bool, status: string)

  /**
   * The `try`/`except` block of `read_params`: a reply is valid exactly when
   * its program holds a non-whitespace character; a failure yields the empty
   * program, invalid, with the exception text as status.
   */
  function TryFetchProgram(reply: RobotReply): (a: Attempt)
    ensures reply.Program? ==> a.program == reply.text && a.status == StatusOk
                               && (a.valid <==> !Blank(reply.text))
    ensures reply.Failure? ==> a == Attempt("", false, reply.message)
  {
    match reply
    case Program(program) =>
      StripEmptyIffBlank(program);
      Attempt(program, |program| > 0 && Strip(program) != [], StatusOk)
    case Failure(message) =>
      Attempt("", false, message)
  }

  /** The response `read_params` builds when the cache has nothing fresh. */
  function FreshResponse(reply: RobotReply): (r: JsonResponse)
    ensures r.valid <==> reply.Program? && !Blank(reply.text)
    ensures r.status == if reply.Program? then StatusOk else reply.message
  {
    var a := TryFetchProgram(reply);
    BuildJsonResponse(a.program, a.valid, a.status)
  }

  /**
   * On a cache miss: a program reply gives status "ok", validity exactly when the
   * program is not blank, and the program's sections; a failure gives an empty,
   * invalid response carrying the error text.
   */
  lemma FreshResponseFields(reply: RobotReply)
    ensures var r := FreshResponse(reply);
      && (reply.Program? ==> r.status == StatusOk && (r.valid <==> !Blank(reply.text))
                             && Sections(r.preamble, r.programNode) == SplitProgramSections(reply.text))
      && (reply.Failure? ==> r == JsonResponse("", "", false, reply.message))
  {
    if reply.Failure? {
      assert Find("", HeaderBegin) == -1 by {
        assert Absent("", HeaderBegin);
      }
    }
  }

  // ---------------------------------------------------------------------------
  // The per-robot cache
  // ---------------------------------------------------------------------------

  /** `(port, robotIP)`. */
  type CacheKey = (int, string)

  datatype CacheEntry = CacheEntry(timestamp: real, response: JsonResponse)

  /**
   * `get_cached_response` on a cache content: the stored response when the
   * key is present and was stored less than `CacheTtl` seconds before `now`.
   */
  function Lookup(cache: map<CacheKey, CacheEntry>, key: CacheKey, now: real): (r: Option<JsonResponse>)
    ensures r.Some? <==> key in cache && now - cache[key].timestamp < CacheTtl
    ensures r.Some? ==> r.value == cache[key].response
  {
    if key in cache then
      var entry := cache[key];
      if now - entry.timestamp < CacheTtl then Some(entry.response) else None
    else
      None
  }

  /**
   * `store_in_cache` on a cache content: a valid response is written under its
   * key with the time `now`, replacing any older entry; an invalid one changes
   * nothing. No other key is touched.
   */
  function Store(cache: map<CacheKey, CacheEntry>, key: CacheKey, now: real, response: JsonResponse, valid: bool)
    : (c: map<CacheKey, CacheEntry>)
    ensures c.Keys == if valid then cache.Keys + {key} else cache.Keys
    ensures valid ==> c[key] == CacheEntry(now, response)
    ensures forall k :: k in cache && k != key ==> c[k] == cache[k]
    ensures !valid ==> c == cache
  {
    if valid then cache[key := CacheEntry(now, response)] else cache
  }

  /** Every cached response is a valid one. */
  ghost predicate OnlyValid(cache: map<CacheKey, CacheEntry>) {
    forall k :: k in cache ==> cache[k].response.valid
  }

  /** A valid response stored at `now` is served for any lookup less than two seconds later. */
  lemma StoredResponseServed(cache: map<CacheKey, CacheEntry>, key: CacheKey, now: real,
                             response: JsonResponse, later: real)
    requires later < now + CacheTtl
    ensures Lookup(Store(cache, key, now, response, true), key, later) == Some(response)
  {
  }

  /** Storing under one key never changes what another key's lookup returns. */
  lemma StoreKeepsOtherKeys(cache: map<CacheKey, CacheEntry>, key: CacheKey, now: real,
                            response: JsonResponse, valid: bool, other: CacheKey, t: real)
    requires other != key
    ensures Lookup(Store(cache, key, now, response, valid), other, t) == Lookup(cache, other, t)
  {
  }

  /**
   * The program cache of the backend process (`program_cache`), a table the
   * handler updates in place.
   */
  class ProgramCache {
    var entries: map<CacheKey, CacheEntry>

    /** Only valid responses are ever kept. */
    ghost predicate Valid()
      reads this
    {
      OnlyValid(entries)
    }

    constructor ()
      ensures Valid() && entries == map[]
    {
      entries := map[];
    }

    /** `get_cached_response`. */
    method GetCachedResponse(key: CacheKey, now: real) returns (r: Option<JsonResponse>)
      ensures r.Some? <==> key in entries && now - entries[key].timestamp < CacheTtl
      ensures r.Some? ==> r.value == entries[key].response
      ensures r == Lookup(entries, key, now)
    {
      r := None;
      if key in entries {
        var entry := entries[key];
        if now - entry.timestamp < CacheTtl {
          r := Some(entry.response);
        }
      }
    }

    /** `store_in_cache`. */
    method StoreInCache(key: CacheKey, now: real, response: JsonResponse, valid: bool)
      modifies this
      ensures entries == Store(old(entries), key, now, response, valid)
      ensures old(Valid()) && (valid ==> response.valid) ==> Valid()
    {
      if valid {
        entries := entries[key := CacheEntry(now, response)];
      }
    }

    /**
     * `read_params`: a fresh cached response is returned as it is, without
     * asking the robot (`contacted` is false) and without touching the cache;
     * otherwise the robot's `reply` is turned into a response, which is kept
     * only if it is valid.
     */
    method ReadParams(port: int, robotIP: string, now: real, reply: RobotReply)
      returns (response: JsonResponse, contacted: bool)
      requires Valid()
      modifies this
      ensures Valid()
      ensures var hit := Lookup(old(entries), (port, robotIP), now);
        if hit.Some? then
          response == hit.value && !contacted && entries == old(entries)
        else
          contacted && response == FreshResponse(reply)
          && entries == Store(old(entries), (port, robotIP), now, response, response.valid)
      ensures !contacted ==> response.valid
    {
      var key := (port, robotIP);
      var cached := GetCachedResponse(key, now);
      if cached.Some? {
        return cached.value, false;
      }
      var attempt := TryFetchProgram(reply);
      response := BuildJsonResponse(attempt.program, attempt.valid, attempt.status);
      StoreInCache(key, now, response, attempt.valid);
      contacted := true;
    }
  }

  /**
   * Two requests for the same robot: when the first one fetched a valid
   * response, a second one less than two seconds later is answered with that
   * same response from the cache, and the robot is not asked again.
   */
  method RepeatedRequest(cache: ProgramCache, port: int, robotIP: string, now: real, later: real,
                         first: RobotReply, second: RobotReply)
    returns (r1: JsonResponse, r2: JsonResponse, contacted2: bool)
    requires cache.Valid() && now <= later < now + CacheTtl
    requires Lookup(cache.entries, (port, robotIP), now).None? && FreshResponse(first).valid
    modifies cache
    ensures r1 == FreshResponse(first) && r2 == r1 && !contacted2
  {
    var contacted1;
    r1, contacted1 := cache.ReadParams(port, robotIP, now, first);
    StoredResponseServed(old(cache.entries), (port, robotIP), now, r1, later);
    r2, contacted2 := cache.ReadParams(port, robotIP, later, second);
  }
}
