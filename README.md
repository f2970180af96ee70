# External Control URCap: program splitting, caching and node behaviour

This project models, in Dafny, the core of the External Control URCap for
Universal Robots PolyScope X. The URCap has two parts.

- **The backend** is a small REST service. It fetches the URScript program
  from the robot's External Control server. When the first `# HEADER_END`
  comes after the first `# HEADER_BEGIN`, it splits the program in two. The
  *preamble* is the text from that begin marker through the end of that end
  marker. The *program node* is the text after the end marker, with leading
  newlines removed. Text before the begin marker goes into neither part.
  Without such a header block, the preamble is empty and the whole text is
  the program node. The backend reports whether the program is usable
  (`valid`) together with a status text. Answers that say the program is
  valid are cached per `(port, robotIP)` for two seconds.
- **The frontend** is the program node's behaviour worker. Its factory
  creates a node that carries a random `nodeHash`. `nodeUpgrade` gives
  older nodes a hash. Among the active External Control nodes of the
  program tree, the *first* node is the one whose hash sorts lowest. The
  worker inserts the backend's program node before the node's children,
  shows a popup when fetching from the backend fails, lets only the first
  node emit the preamble, and turns the backend's `valid` and `status`
  into the node's validation result.

Modules:

- `Wrappers`: the `Option` type.
- `Strings`: models Python's `str.find`, `lstrip('\n')` and `strip()` on
  Python's whitespace set. It also models the decimal rendering of a
  number in a JavaScript template string.
- `RestApi`: the backend's splitter, JSON response record, cache and
  request handler. The cache is the class `ProgramCache`, whose `entries`
  map the handler updates in place.
- `HashOrder`: a sort by key under an abstract comparator, proved to
  produce a sorted permutation.
- `ProgramBehavior`: the worker's hooks. `NodeUpgrade` is a method over a
  shared `ParameterObject`, because the source mutates the loaded node's
  parameters object through a shallow copy. `ScriptBuilder` is a class
  whose fragments `AddRaw` appends to.
- `EndToEnd`: composes the backend's response with the worker's hooks. It
  states what code and validation result a given robot reply leads to.

Modelling choices:

- The robot's reply, the clock (`now`), the fresh UUID, the program tree,
  the HTTP reply and the string comparator are all parameters.
- `localeCompare` becomes a comparator `le` about which the properties
  assume only that it is a total order (`HashOrder.TotalOrder`).
- A JSON field the frontend reads may be absent. It is an `Option` of the
  type the backend writes.

Two points about the code's behaviour:

- The backend caches answers, but only those it marked valid. An invalid
  or failed answer is never cached, so the next request asks the robot
  again.
- "The first node" is decided by hash equality. Two candidates sharing
  the lowest hash are both "first" (`ProgramBehavior.FirstIffLeastHash`).
  Only with distinct hashes is exactly one node first
  (`ProgramBehavior.ExactlyOneFirst`).

## Model

Paths are relative to the repository root; `simple_rest_api.py` is
`external-control-backend/src/simple_rest_api.py` and the worker is
`external-control-frontend/src/app/components/external-control-program/external-control-program.behavior.worker.ts`.

| member | source | states |
|---|---|---|
| Strings.Find | external-control-backend/src/simple_rest_api.py:38-39 | `str.find`: -1 exactly when the pattern occurs nowhere; otherwise the index of its first occurrence |
| Strings.FindLocates | external-control-backend/src/simple_rest_api.py:38-39 | the first occurrence of a pattern is what `find` returns |
| Strings.LStrip | external-control-backend/src/simple_rest_api.py:44 | `lstrip('\n')` leaves a suffix that does not start with a newline, and removes only newlines |
| Strings.Strip | external-control-backend/src/simple_rest_api.py:85 | `strip()` removes exactly the leading and trailing whitespace: the text is whitespace, then the result, then whitespace, and the result neither starts nor ends with whitespace; `Strings.StripEmptyIffBlank` says when it is empty |
| Strings.StripEmptyIffBlank | external-control-backend/src/simple_rest_api.py:85 | the stripped program is empty exactly when every character is whitespace |
| RestApi.MarkersDisjoint | external-control-backend/src/simple_rest_api.py:36-42 | when the end marker comes after the begin marker, it starts after the begin marker ends, so the two never overlap |
| RestApi.CutSections | external-control-backend/src/simple_rest_api.py:41-44 | the cut preamble starts with `# HEADER_BEGIN` and ends with `# HEADER_END`; the body is a suffix of the text |
| RestApi.SplitProgramSections | external-control-backend/src/simple_rest_api.py:33-48 | any non-empty preamble is framed by the two markers; the program node is a suffix of the text; together they are no longer than the text |
| RestApi.SplitWithHeader | external-control-backend/src/simple_rest_api.py:38-44 | with a header block, the preamble is exactly the text from the first begin marker through the end of the first end marker, and the body follows it after a run of newlines, not starting with one |
| RestApi.CutLayout | external-control-backend/src/simple_rest_api.py:41-44 | the text from the begin marker is the preamble, then only newlines, then the program node |
| RestApi.SplitWithoutHeader | external-control-backend/src/simple_rest_api.py:38-47 | when a marker is missing or the first end marker does not follow the first begin marker, the preamble is empty and the program node is the whole text |
| RestApi.PreambleIffHeader | external-control-backend/src/simple_rest_api.py:33-48 | the preamble is non-empty exactly when the program has a header block |
| RestApi.BuildJsonResponse | external-control-backend/src/simple_rest_api.py:57-65 | the response carries `valid` and `status` unchanged and the split sections; its preamble is non-empty exactly when the program has a header block |
| RestApi.TryFetchProgram | external-control-backend/src/simple_rest_api.py:80-92 | a program from the robot gives status "ok" and is valid exactly when it is not all whitespace; a failure gives an empty, invalid program with the error text as status |
| RestApi.FreshResponse | external-control-backend/src/simple_rest_api.py:80-93 | the response built on a cache miss is valid exactly when the robot sent a program that is not all whitespace; its status is "ok" for a program and the error text for a failure; `RestApi.FreshResponseFields` gives all its fields |
| RestApi.FreshResponseFields | external-control-backend/src/simple_rest_api.py:80-93 | the response built from a robot answer: status "ok", validity as above and the split sections; a failure gives empty sections, `valid: false` and the error text |
| RestApi.Lookup | external-control-backend/src/simple_rest_api.py:50-55 | an answer is served exactly when the key is cached and its entry is younger than `CACHE_TTL`, and the answer is the stored response |
| RestApi.Store | external-control-backend/src/simple_rest_api.py:67-69 | a valid response is stored under its key with the current time and every other key is untouched; an invalid one leaves the cache unchanged |
| RestApi.StoredResponseServed | external-control-backend/src/simple_rest_api.py:50-69 | a valid response just stored is served for any lookup whose time is less than two seconds after the store, including a time before it when the clock went back |
| RestApi.StoreKeepsOtherKeys | external-control-backend/src/simple_rest_api.py:67-69 | storing under one key never changes what another key serves |
| RestApi.ProgramCache.constructor | external-control-backend/src/simple_rest_api.py:29-31 | the cache starts empty |
| RestApi.ProgramCache.GetCachedResponse | external-control-backend/src/simple_rest_api.py:50-55 | the cache lookup on the object's entries, without changing them |
| RestApi.ProgramCache.StoreInCache | external-control-backend/src/simple_rest_api.py:67-69 | the entries become `Store` of the old entries, and the cache keeps holding only valid responses |
| RestApi.ProgramCache.ReadParams | external-control-backend/src/simple_rest_api.py:72-95 | on a fresh cache hit the cached response is returned, the robot is not contacted and the cache is unchanged; otherwise the robot is contacted, the response is built from its reply and it is stored when valid; an answer served without contacting the robot is always a valid one |
| RestApi.RepeatedRequest | external-control-backend/src/simple_rest_api.py:74-94 | after a valid answer, a second request for the same robot within two seconds gets the same response without contacting the robot |
| HashOrder.Insert | external-control-frontend/src/app/components/external-control-program/external-control-program.behavior.worker.ts:66 | inserting into a sorted list adds exactly the element and keeps the list sorted |
| HashOrder.SortBy | external-control-frontend/src/app/components/external-control-program/external-control-program.behavior.worker.ts:66 | `sort` returns a permutation of the list, sorted by the key when the comparator is a total order |
| HashOrder.HeadIsLeast | external-control-frontend/src/app/components/external-control-program/external-control-program.behavior.worker.ts:66-68 | the head of the sorted non-empty list is one of its elements and its key may precede every element's key |
| ProgramBehavior.CreateProgramNode | external-control-frontend/src/app/components/external-control-program/external-control-program.behavior.worker.ts:37-49 | the factory's node is an active External Control node at version 1.1.0, with children neither locked nor allowed, whose only parameter is the fresh hash |
| ProgramBehavior.Upgraded | external-control-frontend/src/app/components/external-control-program/external-control-program.behavior.worker.ts:131-145 | a node already carrying a truthy hash is unchanged; otherwise it gets a parameters object holding the fresh hash; every other field and parameter is kept |
| ProgramBehavior.UpgradeIdempotent | external-control-frontend/src/app/components/external-control-program/external-control-program.behavior.worker.ts:139-142 | upgrading an upgraded node changes nothing, whatever new hash is offered (the first hash being non-empty, as `uuidv4`'s always is) |
| ProgramBehavior.FactoryNodeIsUpToDate | external-control-frontend/src/app/components/external-control-program/external-control-program.behavior.worker.ts:40-48 | upgrading a node the factory created leaves it unchanged (its hash being non-empty, as `uuidv4`'s always is) |
| ProgramBehavior.ParameterObject.constructor | external-control-frontend/src/app/components/external-control-program/external-control-program.behavior.worker.ts:136 | a new parameters object holds no hash and no other parameters |
| ProgramBehavior.NodeUpgrade | external-control-frontend/src/app/components/external-control-program/external-control-program.behavior.worker.ts:131-145 | the shallow copy keeps every top-level field and shares the loaded node's parameters object, which it mutates, or else holds a new one; the parameters seen afterwards are `Upgraded` of the old ones |
| ProgramBehavior.HashOf | external-control-frontend/src/app/components/external-control-program/external-control-program.behavior.worker.ts:66-68 | `node.parameters?.nodeHash`: no hash when the node has no parameters, otherwise the parameters' hash, which may also be missing |
| ProgramBehavior.Candidates | external-control-frontend/src/app/components/external-control-program/external-control-program.behavior.worker.ts:65 | the filtered list is no longer than the tree |
| ProgramBehavior.CandidatesMembers | external-control-frontend/src/app/components/external-control-program/external-control-program.behavior.worker.ts:65 | the filter keeps exactly the non-suppressed External Control nodes |
| ProgramBehavior.CandidatesNone | external-control-frontend/src/app/components/external-control-program/external-control-program.behavior.worker.ts:65 | a tree without candidates filters to nothing |
| ProgramBehavior.CandidatesOfJoin | external-control-frontend/src/app/components/external-control-program/external-control-program.behavior.worker.ts:65 | filtering a concatenation concatenates the filtered parts |
| ProgramBehavior.CandidatesSkipOther | external-control-frontend/src/app/components/external-control-program/external-control-program.behavior.worker.ts:65 | a node that is suppressed or of another type is dropped wherever it stands |
| ProgramBehavior.IsFirstProgramNode | external-control-frontend/src/app/components/external-control-program/external-control-program.behavior.worker.ts:63-69 | `isThisNodeTheFirstUrcapNodeInTree`, whatever the comparator: when it answers true, the node has a hash and some candidate in the tree carries that hash; `ProgramBehavior.FirstIffLeastHash` gives the exact condition under a total order |
| ProgramBehavior.SortedHeadIsCandidate | external-control-frontend/src/app/components/external-control-program/external-control-program.behavior.worker.ts:64-68 | the head of the sorted list is a non-suppressed External Control node of the tree, whatever the comparator |
| ProgramBehavior.NoCandidateNoFirst | external-control-frontend/src/app/components/external-control-program/external-control-program.behavior.worker.ts:63-68 | with no candidate in the tree, no node is the first |
| ProgramBehavior.FirstIffLeastHash | external-control-frontend/src/app/components/external-control-program/external-control-program.behavior.worker.ts:63-69 | a node is the first exactly when it has a hash, some candidate has that hash, and the hash may precede every candidate's hash |
| ProgramBehavior.FirstIgnoresListOrder | external-control-frontend/src/app/components/external-control-program/external-control-program.behavior.worker.ts:64-68 | the choice does not depend on the order in which the host lists the nodes |
| ProgramBehavior.FirstIgnoresOtherNodes | external-control-frontend/src/app/components/external-control-program/external-control-program.behavior.worker.ts:65-68 | inserting a suppressed node or a node of another type anywhere never changes the choice |
| ProgramBehavior.ExactlyOneFirst | external-control-frontend/src/app/components/external-control-program/external-control-program.behavior.worker.ts:63-69 | when the candidates' hashes are distinct and there is a candidate, exactly one candidate is the first |
| ProgramBehavior.FactoryNodeAloneIsFirst | external-control-frontend/src/app/components/external-control-program/external-control-program.behavior.worker.ts:63-69 | a single node created by the factory, with no other candidate, is the first |
| Strings.DecimalString | external-control-frontend/src/app/components/external-control-program/external-control-program.behavior.worker.ts:58 | the rendered status is a string of decimal digits whose value is the number, without leading zeros |
| ProgramBehavior.BackendErrorText | external-control-frontend/src/app/components/external-control-program/external-control-program.behavior.worker.ts:57-59 | the error text is "Backend error: " followed by the decimal HTTP status, with no leading zeros |
| ProgramBehavior.FetchBackendJson | external-control-frontend/src/app/components/external-control-program/external-control-program.behavior.worker.ts:51-61 | the body is returned exactly when the status is in 200-299 and the body parses; a network failure or an unparsable body fails with its own message; a non-OK status fails with "Backend error: <status>" |
| ProgramBehavior.Popup | external-control-frontend/src/app/components/external-control-program/external-control-program.behavior.worker.ts:82 | the popup is the text `popup("`, then the message unescaped, then `", title="Connection Error!",blocking=True)` |
| ProgramBehavior.PopupQuotesMessage | external-control-frontend/src/app/components/external-control-program/external-control-program.behavior.worker.ts:80-82 | the popup's first quoted argument ends exactly after the message only when the message holds no double quote |
| ProgramBehavior.CodeBeforeChildren | external-control-frontend/src/app/components/external-control-program/external-control-program.behavior.worker.ts:77-83 | the backend's `program_node`, or nothing when the field is missing; on any fetch error, the popup with the error text |
| ProgramBehavior.ScriptBuilder.constructor | external-control-frontend/src/app/components/external-control-program/external-control-program.behavior.worker.ts:76 | a new builder holds no code |
| ProgramBehavior.ScriptBuilder.AddRaw | external-control-frontend/src/app/components/external-control-program/external-control-program.behavior.worker.ts:79 | `addRaw` appends one fragment and keeps the earlier ones |
| ProgramBehavior.GenerateScriptCodeBefore | external-control-frontend/src/app/components/external-control-program/external-control-program.behavior.worker.ts:71-85 | a new builder holding exactly the one fragment `CodeBeforeChildren` gives for the fetch result |
| ProgramBehavior.PreambleCode | external-control-frontend/src/app/components/external-control-program/external-control-program.behavior.worker.ts:95-108 | the code is non-empty exactly when the node is the first and the backend answers with a non-empty `preamble`, and then it is that preamble |
| ProgramBehavior.GeneratePreambleScriptCode | external-control-frontend/src/app/components/external-control-program/external-control-program.behavior.worker.ts:89-111 | a new builder holding exactly the one fragment `PreambleCode` gives for this node's position and the fetch result |
| ProgramBehavior.Validate | external-control-frontend/src/app/components/external-control-program/external-control-program.behavior.worker.ts:113-125 | valid exactly when the backend says `valid: true`, with its `status` as message key; on a fetch error, invalid with the error text |
| ProgramBehavior.ValidateHttpError | external-control-frontend/src/app/components/external-control-program/external-control-program.behavior.worker.ts:118-124 | a non-OK HTTP status makes the node invalid with "Backend error: <status>" as message key |
| EndToEnd.RobotProgramReachesEditor | external-control-backend/src/simple_rest_api.py:57-65 | for a robot program, the code before children is its split body; the first node's preamble is its split preamble, non-empty exactly when the program has a header block; any other node emits no preamble |
| EndToEnd.EditorValidatesLikeBackend | external-control-frontend/src/app/components/external-control-program/external-control-program.behavior.worker.ts:118-120 | for a robot program, the node is valid exactly when the program is not all whitespace, with message key "ok" |
| EndToEnd.RobotFailureReachesEditor | external-control-backend/src/simple_rest_api.py:88-93 | when the robot cannot be reached, the node is invalid with the error text, and the node emits no code before its children and no preamble |

## Left out

- Flask routing, CORS, logging, the startup hostname lookups and running the server (simple_rest_api.py:10-27, 73, 97-99): setup and I/O with no logic of the core.
- The socket exchange with the robot (`request_program.RequestProgram`, `send_command`): the robot's answer is the `RestApi.RobotReply` parameter. `request_program` is not part of this model, and a `None` answer is not modelled; the answer is a string or an exception message.
- `time.time()`: the current time is the `now` parameter, a real number; floating-point rounding is not modelled.
- `flask.json.dumps` and `flask.Response`: the serialised JSON text is represented by the `RestApi.JsonResponse` record it encodes; the MIME type is not modelled.
- Concurrent requests to the Flask server sharing `program_cache`: the model runs one request at a time.
- The host API of the worker (`ProgramBehaviorAPI`, `getApplicationNode`, `getContributedNodeInstancesForURCap`, `getContainerContributionURL`, `location.protocol`, `console.log`, `fetch` and `response.json()`): their results are parameters (`tree`, `HttpReply`); the backend URL is not modelled.
- `uuidv4`: the fresh hash is a parameter; that it is random and distinct between calls is not modelled (`ProgramBehavior.ExactlyOneFirst` assumes distinct hashes instead).
- The label hook `createProgramNodeLabel`, `generateScriptCodeAfter`, `allowChildInsert` and `allowedInsert` (worker lines 21-35, 87, 127-129): they return constants or host data and decide nothing in this core.
- The `behaviors` table and its registration with the host (worker lines 147-164).
- ProgramBehavior.IsFirstProgramNode and ProgramBehavior.GeneratePreambleScriptCode: require every candidate to carry a hash (`CandidatesHashed`). A candidate without one does not arise, because the factory (worker line 46) and `nodeUpgrade` (worker lines 140-142) always set a hash. What the source does in that case is not modelled: the comparator then throws, returns `undefined`, or compares against the string "undefined", and a lone candidate without a hash is compared by `undefined === node.parameters?.nodeHash`.
- HashOrder.SortBy: `localeCompare` is an abstract comparator assumed to be a total order; locale collation that ranks two distinct strings equal is not modelled, and the sort is not in place; the caller's list is a value and is left unchanged.
- ProgramBehavior.Upgraded: "truthy" for a hash is "present and non-empty"; hashes of other JSON types are not modelled.
- A JSON body that holds `null` or fields of other types than the backend writes: the worker's `json.program_node` on `null` and non-string field values are not modelled; the body the worker parses holds the four fields the backend writes.
- Thrown values that are not `Error` objects (`String(e)` in the catch blocks): everything the fetch can throw is an `Error`, so the thrown message is used.
- ProgramBehavior.NodeUpgrade: the node's top-level fields are the six the core reads or writes; other fields the host may add are not modelled.
- The host's `ScriptBuilder` rendering of fragments into script text: the builder is the list of fragments added.
