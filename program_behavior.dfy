/**
 * The behaviour hooks of the External Control program node in the robot
 * programming editor: the factory, the schema upgrade, the choice of the one
 * node that emits the preamble, and the mapping of the backend's answer to
 * script code and to a validation result.
 *
 * The host API (`ProgramBehaviorAPI`), `fetch`, the URL lookup and `uuidv4`
 * are not part of this model: the list of node instances in the tree, the
 * backend's HTTP reply and the fresh hash are parameters.
 */
module ProgramBehavior {
  import opened Wrappers
  import opened Strings
  import opened HashOrder

  const ProgramNodeType: string := "universal-robots-external-control-external-control-program"
  const NodeVersion: string := "1.1.0"

  // ---------------------------------------------------------------------------
  // Program nodes
  // ---------------------------------------------------------------------------

  /** A node's `parameters` bag: its `nodeHash` (may be missing) and every other parameter. */
  datatype Parameters = Parameters(nodeHash: Option<string>, others: map<string, string>)

  /**
   * A program node as the host hands it over: its type tag, version, child
   * flags, suppression state and its `parameters`, which may be missing.
   */
  datatype ProgramNode = ProgramNode(
    nodeType: string,
    version: string,
    lockChildren: bool,
    allowsChildren: bool,
    isSuppressed: bool,
    parameters: Option<Parameters>)

  /** `node.parameters?.nodeHash`. */
  function HashOf(n: ProgramNode): (h: Option<string>)
    ensures n.parameters.None? ==> h == None
    ensures n.parameters.Some? ==> h == n.parameters.value.nodeHash
  {
    match n.parameters
    case Some(p) => p.nodeHash
    case None => None
  }

  /** The hash a node is sorted by (only ever used on nodes that have one). */
  function HashKey(n: ProgramNode): string {
    HashOf(n).GetOr("")
  }

  /** JavaScript truthiness of an optional string: present and not empty. */
  predicate Truthy(h: Option<string>) {
    h.Some? && h.value != ""
  }

  // ---------------------------------------------------------------------------
  // Factory
  // ---------------------------------------------------------------------------

  /**
   * `createProgramNode`, with the `uuidv4()` result passed in: a node of this
   * type at version 1.1.0 that neither locks nor allows children and whose
   * only parameter is the fresh hash.
   */
  function CreateProgramNode(freshHash: string): (n: ProgramNode)
    ensures IsCandidate(n) && HashOf(n) == Some(freshHash)
    ensures n.version == NodeVersion && !n.lockChildren && !n.allowsChildren
    ensures n.parameters.Some? && n.parameters.value.others == map[]
  {
    ProgramNode(ProgramNodeType, NodeVersion, false, false, false,
                Some(Parameters(Some(freshHash), map[])))
  }

  // ---------------------------------------------------------------------------
  // Upgrade
  // ---------------------------------------------------------------------------

  /**
   * `nodeUpgrade` on node values, with the `uuidv4()` result passed in: a
   * node with a non-empty hash is returned as it is; otherwise the node gets
   * a `parameters` bag if it had none, holding the fresh hash and the other
   * parameters it had.
   */
  function Upgraded(n: ProgramNode, freshHash: string): (r: ProgramNode)
    ensures Truthy(HashOf(n)) ==> r == n
    ensures !Truthy(HashOf(n)) ==> HashOf(r) == Some(freshHash)
    ensures r.parameters.Some?
    ensures r.(parameters := n.parameters) == n
    ensures r.parameters.value.others == if n.parameters.Some? then n.parameters.value.others else map[]
  {
    var p := n.parameters.GetOr(Parameters(None, map[]));
    var p' := if Truthy(p.nodeHash) then p else p.(nodeHash := Some(freshHash));
    n.(parameters := Some(p'))
  }

  /** Upgrading an upgraded node changes nothing (hashes from `uuidv4` are never empty). */
  lemma UpgradeIdempotent(n: ProgramNode, freshHash: string, laterHash: string)
    requires freshHash != ""
    ensures Upgraded(Upgraded(n, freshHash), laterHash) == Upgraded(n, freshHash)
  {
  }

  /** A node made by the factory needs no upgrade. */
  lemma FactoryNodeIsUpToDate(freshHash: string, laterHash: string)
    requires freshHash != ""
    ensures Upgraded(CreateProgramNode(freshHash), laterHash) == CreateProgramNode(freshHash)
  {
  }

  /** The mutable `parameters` object of a node loaded from a saved program. */
  class ParameterObject {
    var nodeHash: Option<string>
    var others: map<string, string>

    /** `{}`. */
    constructor ()
      ensures nodeHash == None && others == map[]
    {
      nodeHash := None;
      others := map[];
    }
  }

  /** A loaded node: a record whose `parameters` is a shared object, or missing. */
  datatype LoadedNode = LoadedNode(
    nodeType: string,
    version: string,
    lockChildren: bool,
    allowsChildren: bool,
    isSuppressed: bool,
    parameters: ParameterObject?)

  /** The value a loaded node currently denotes. */
  function Snapshot(n: LoadedNode): ProgramNode
    reads n.parameters
  {
    ProgramNode(n.nodeType, n.version, n.lockChildren, n.allowsChildren, n.isSuppressed,
                if n.parameters == null then None
                else Some(Parameters(n.parameters.nodeHash, n.parameters.others)))
  }

  /**
   * `nodeUpgrade` step by step: a shallow copy of the loaded node, a fresh
   * `parameters` object when it had none, and the hash written into that
   * object when it was missing or empty. The copy shares the loaded node's
   * `parameters` object, so the loaded node sees the new hash as well.
   */
  method NodeUpgrade(loaded: LoadedNode, freshHash: string) returns (upgraded: LoadedNode)
    modifies loaded.parameters
    ensures upgraded.parameters != null
    ensures upgraded.(parameters := loaded.parameters) == loaded
    ensures loaded.parameters != null ==> upgraded.parameters == loaded.parameters
    ensures loaded.parameters == null ==> fresh(upgraded.parameters)
    ensures Snapshot(upgraded) == Upgraded(old(Snapshot(loaded)), freshHash)
  {
    upgraded := loaded;
    if upgraded.parameters == null {
      var p := new ParameterObject();
      upgraded := upgraded.(parameters := p);
    }
    if !Truthy(upgraded.parameters.nodeHash) {
      upgraded.parameters.nodeHash := Some(freshHash);
    }
  }

  // ---------------------------------------------------------------------------
  // The first node of this type in the tree
  // ---------------------------------------------------------------------------

  /** A node that takes part in the choice: not suppressed and of this type. */
  predicate IsCandidate(n: ProgramNode) {
    !n.isSuppressed && n.nodeType == ProgramNodeType
  }

  /** The filtered copy of the tree's node list: the candidates, in list order. */
  function Candidates(tree: seq<ProgramNode>): (c: seq<ProgramNode>)
    ensures |c| <= |tree|
  {
    if tree == [] then []
    else (if IsCandidate(tree[0]) then [tree[0]] else []) + Candidates(tree[1..])
  }

  /** The filtered copy holds exactly the candidates of the list. */
  lemma {:induction false} CandidatesMembers(tree: seq<ProgramNode>)
    ensures forall n :: n in Candidates(tree) <==> n in tree && IsCandidate(n)
  {
    if tree != [] {
      CandidatesMembers(tree[1..]);
      assert tree == [tree[0]] + tree[1..];
    }
  }

  /**
   * Every candidate carries a hash, as the factory and the upgrade ensure.
   * For a candidate without one the source's comparator may throw (the
   * left node has parameters but no hash, or the right node has no
   * parameters), return `undefined`, or compare against "undefined".
   */
  ghost predicate CandidatesHashed(tree: seq<ProgramNode>) {
    forall n :: n in tree && IsCandidate(n) ==> HashOf(n).Some?
  }

  /**
   * `isThisNodeTheFirstUrcapNodeInTree`, with the tree's node list passed
   * in: sort the candidates by hash and compare the head's hash with this
   * node's.
   */
  function IsFirstProgramNode(node: ProgramNode, tree: seq<ProgramNode>, le: (string, string) -> bool): (r: bool)
    requires CandidatesHashed(tree)
    ensures r ==> HashOf(node).Some? && exists c :: c in tree && IsCandidate(c) && HashOf(c) == HashOf(node)
  {
    var sorted := SortBy(Candidates(tree), HashKey, le);
    if |sorted| > 0 then
      SortedHeadIsCandidate(tree, le);
      HashOf(sorted[0]) == HashOf(node)
    else
      false
  }

  /** Whatever the comparator, the head of the sorted list is a candidate of the tree. */
  lemma SortedHeadIsCandidate(tree: seq<ProgramNode>, le: (string, string) -> bool)
    requires |SortBy(Candidates(tree), HashKey, le)| > 0
    ensures var head := SortBy(Candidates(tree), HashKey, le)[0];
      head in tree && IsCandidate(head)
  {
    var sorted := SortBy(Candidates(tree), HashKey, le);
    assert sorted[0] in multiset(sorted);
    CandidatesMembers(tree);
  }

  /** No candidate in the tree: no node is the first. */
  lemma NoCandidateNoFirst(node: ProgramNode, tree: seq<ProgramNode>, le: (string, string) -> bool)
    requires forall n :: n in tree ==> !IsCandidate(n)
    ensures !IsFirstProgramNode(node, tree, le)
  {
    CandidatesNone(tree);
    assert multiset(SortBy(Candidates(tree), HashKey, le)) == multiset{};
  }

  /** A list without candidates filters to nothing. */
  lemma CandidatesNone(tree: seq<ProgramNode>)
    requires forall n :: n in tree ==> !IsCandidate(n)
    ensures Candidates(tree) == []
  {
    CandidatesMembers(tree);
    var c := Candidates(tree);
    assert forall i :: 0 <= i < |c| ==> c[i] in c;
  }

  /**
   * A node is the first exactly when it has a hash, some candidate has that
   * hash, and that hash may precede the hash of every candidate.
   */
  lemma FirstIffLeastHash(node: ProgramNode, tree: seq<ProgramNode>, le: (string, string) -> bool)
    requires TotalOrder(le) && CandidatesHashed(tree)
    ensures IsFirstProgramNode(node, tree, le) <==>
      && HashOf(node).Some?
      && (exists c :: c in tree && IsCandidate(c) && HashOf(c) == HashOf(node))
      && (forall d :: d in tree && IsCandidate(d) ==> le(HashOf(node).value, HashKey(d)))
  {
    var cands := Candidates(tree);
    var sorted := SortBy(cands, HashKey, le);
    CandidatesMembers(tree);
    if cands != [] {
      HeadIsLeast(cands, HashKey, le);
      var head := sorted[0];
      if HashOf(node).Some? && (exists c :: c in tree && IsCandidate(c) && HashOf(c) == HashOf(node))
         && (forall d :: d in tree && IsCandidate(d) ==> le(HashOf(node).value, HashKey(d)))
      {
        var c :| c in tree && IsCandidate(c) && HashOf(c) == HashOf(node);
        assert le(HashKey(head), HashKey(c));
        assert le(HashKey(c), HashKey(head));
      }
    } else {
      CandidatesMembers(tree);
    }
  }

  /** The choice depends only on which nodes the list holds, not on their order. */
  lemma FirstIgnoresListOrder(node: ProgramNode, tree: seq<ProgramNode>, shuffled: seq<ProgramNode>,
                              le: (string, string) -> bool)
    requires TotalOrder(le) && CandidatesHashed(tree)
    requires multiset(shuffled) == multiset(tree)
    ensures CandidatesHashed(shuffled)
    ensures IsFirstProgramNode(node, shuffled, le) == IsFirstProgramNode(node, tree, le)
  {
    forall n ensures n in shuffled <==> n in tree {
      assert n in shuffled <==> n in multiset(shuffled);
      assert n in tree <==> n in multiset(tree);
    }
    FirstIffLeastHash(node, tree, le);
    FirstIffLeastHash(node, shuffled, le);
  }

  /** Filtering distributes over concatenation. */
  lemma {:induction false} CandidatesOfJoin(a: seq<ProgramNode>, b: seq<ProgramNode>)
    ensures Candidates(a + b) == Candidates(a) + Candidates(b)
  {
    if a == [] {
      assert a + b == b;
    } else {
      var head := if IsCandidate(a[0]) then [a[0]] else [];
      assert (a + b)[0] == a[0];
      assert (a + b)[1..] == a[1..] + b;
      assert Candidates(a + b) == head + Candidates(a[1..] + b);
      CandidatesOfJoin(a[1..], b);
      assert Candidates(a) == head + Candidates(a[1..]);
      assert head + (Candidates(a[1..]) + Candidates(b)) == (head + Candidates(a[1..])) + Candidates(b);
    }
  }

  /** Filtering drops a node that is not a candidate wherever it stands. */
  lemma CandidatesSkipOther(before: seq<ProgramNode>, other: ProgramNode, after: seq<ProgramNode>)
    requires !IsCandidate(other)
    ensures Candidates(before + [other] + after) == Candidates(before + after)
  {
    var rest := [other] + after;
    assert before + [other] + after == before + rest;
    CandidatesOfJoin(before, rest);
    CandidatesOfJoin([other], after);
    CandidatesOfJoin(before, after);
    assert [other][1..] == [];
    assert Candidates([other]) == [] + Candidates([]);
    assert Candidates(rest) == Candidates(after);
  }

  /** A suppressed node, or a node of another type, never changes the choice. */
  lemma FirstIgnoresOtherNodes(node: ProgramNode, before: seq<ProgramNode>, other: ProgramNode,
                               after: seq<ProgramNode>, le: (string, string) -> bool)
    requires !IsCandidate(other) && CandidatesHashed(before + after)
    ensures CandidatesHashed(before + [other] + after)
    ensures IsFirstProgramNode(node, before + [other] + after, le) == IsFirstProgramNode(node, before + after, le)
  {
    var joined := before + [other] + after;
    CandidatesSkipOther(before, other, after);
    CandidatesMembers(joined);
    forall n | n in joined && IsCandidate(n) ensures HashOf(n).Some? {
      assert n in Candidates(joined);
    }
  }

  /**
   * When the candidates' hashes are distinct, exactly one candidate is the
   * first.
   */
  lemma ExactlyOneFirst(tree: seq<ProgramNode>, le: (string, string) -> bool)
    requires TotalOrder(le) && CandidatesHashed(tree)
    requires exists n :: n in tree && IsCandidate(n)
    requires forall a, b :: a in tree && b in tree && IsCandidate(a) && IsCandidate(b) && HashOf(a) == HashOf(b) ==> a == b
    ensures exists c :: c in tree && IsCandidate(c) && IsFirstProgramNode(c, tree, le)
    ensures forall c, d ::
              (c in tree && d in tree && IsCandidate(c) && IsCandidate(d)
               && IsFirstProgramNode(c, tree, le) && IsFirstProgramNode(d, tree, le)) ==> c == d
  {
    var cands := Candidates(tree);
    CandidatesMembers(tree);
    var n :| n in tree && IsCandidate(n);
    assert n in cands;
    HeadIsLeast(cands, HashKey, le);
    var head := SortBy(cands, HashKey, le)[0];
    assert IsFirstProgramNode(head, tree, le);
  }

  /** A factory node alone in the tree is the first. */
  lemma FactoryNodeAloneIsFirst(freshHash: string, le: (string, string) -> bool)
    ensures CandidatesHashed([CreateProgramNode(freshHash)])
    ensures IsFirstProgramNode(CreateProgramNode(freshHash), [CreateProgramNode(freshHash)], le)
  {
    var n := CreateProgramNode(freshHash);
    assert Candidates([n]) == [n] + Candidates([]);
    assert SortBy([n], HashKey, le) == Insert(n, SortBy([], HashKey, le), HashKey, le);
  }

  // ---------------------------------------------------------------------------
  // The backend's answer
  // ---------------------------------------------------------------------------

  /** The parsed JSON body; fields the backend left out are `None`. */
  datatype BackendJson = BackendJson(
    programNode: Option<string>,
    preamble: Option<string>,
    valid: Option<bool>,
    status: Option<string>)

  datatype JsonBody = Parsed(json: BackendJson) | Unparsable(message: string)

  /** What `fetch` yields: a rejected request, or an HTTP status with a body. */
  datatype HttpReply = NetworkFailure(message: string) | HttpResponse(status: nat, body: JsonBody)

  /** `fetchBackendJson`'s outcome: the parsed body, or the message of the error it throws. */
  datatype FetchResult = Fetched(json: BackendJson) | FetchFailed(message: string)

  /** `response.ok`: a status in the range 200-299. */
  predicate IsOk(status: nat) {
    200 <= status <= 299
  }

  /** The text of the error thrown for a non-OK status. */
  function BackendErrorText(status: nat): (t: string)
    ensures |t| > 15 && t[..15] == "Backend error: " && IsDigits(t[15..]) && DecimalValue(t[15..]) == status
    ensures t[15] == '0' ==> t == "Backend error: 0"
  {
    var t := "Backend error: " + DecimalString(status);
    assert t[15..] == DecimalString(status);
    t
  }

  /**
   * `fetchBackendJson`: a failed request and an unreadable body fail with
   * their own message, a non-OK status fails with "Backend error: <status>"
   * before the body is read, and only an OK status with a parsed body
   * succeeds.
   */
  function FetchBackendJson(reply: HttpReply): (r: FetchResult)
    ensures r.Fetched? <==> reply.HttpResponse? && IsOk(reply.status) && reply.body.Parsed?
    ensures r.Fetched? ==> r.json == reply.body.json
    ensures reply.NetworkFailure? ==> r == FetchFailed(reply.message)
    ensures reply.HttpResponse? && !IsOk(reply.status) ==> r == FetchFailed(BackendErrorText(reply.status))
    ensures reply.HttpResponse? && IsOk(reply.status) && reply.body.Unparsable? ==> r == FetchFailed(reply.body.message)
  {
    match reply
    case NetworkFailure(message) => FetchFailed(message)
    case HttpResponse(status, body) =>
      if !IsOk(status) then FetchFailed(BackendErrorText(status))
      else
        match body
        case Parsed(json) => Fetched(json)
        case Unparsable(message) => FetchFailed(message)
  }

  // ---------------------------------------------------------------------------
  // Script code and validation
  // ---------------------------------------------------------------------------

  const PopupHead: string := "popup(\""
  const PopupTail: string := "\", title=\"Connection Error!\",blocking=True)"

  /** The blocking popup statement that reports a connection error. */
  function Popup(message: string): (code: string)
    ensures |code| == |PopupHead| + |message| + |PopupTail|
    ensures code[..|PopupHead|] == PopupHead
    ensures code[|PopupHead|..|PopupHead| + |message|] == message
    ensures code[|PopupHead| + |message|..] == PopupTail
  {
    PopupHead + message + PopupTail
  }

  /**
   * The popup's first string argument is exactly the message when, and only
   * when, the message holds no double quote: the message is not escaped.
   */
  lemma PopupQuotesMessage(message: string)
    ensures '"' !in message <==> Find(Popup(message)[|PopupHead|..], "\"") == |message|
  {
    DropHead(PopupHead, message, PopupTail);
    FirstQuoteAfter(message, PopupTail);
  }

  /** Cutting `head` off the front of `head + message + tail`. */
  lemma DropHead(head: string, message: string, tail: string)
    ensures (head + message + tail)[|head|..] == message + tail
  {
  }

  /** In `message + tail` with `tail` opening on a quote, the first quote ends `message` exactly when `message` has none. */
  lemma FirstQuoteAfter(message: string, tail: string)
    requires |tail| > 0 && tail[0] == '"'
    ensures '"' !in message <==> Find(message + tail, "\"") == |message|
  {
    var rest := message + tail;
    if '"' !in message {
      assert OccursAt(rest, "\"", |message|) by {
        assert rest[|message|..|message| + 1] == [tail[0]];
      }
      forall j | 0 <= j < |message| ensures !OccursAt(rest, "\"", j) {
        assert rest[j..j + 1] == [message[j]];
      }
      FindLocates(rest, "\"", |message|);
    } else {
      var j :| 0 <= j < |message| && message[j] == '"';
      assert OccursAt(rest, "\"", j) by {
        assert rest[j..j + 1] == [message[j]];
      }
      assert !Absent(rest, "\"");
    }
  }

  /**
   * The code `generateScriptCodeBefore` adds: the backend's `program_node`
   * (nothing when it is missing), or the popup with the error text.
   */
  function CodeBeforeChildren(f: FetchResult): (code: string)
    ensures f.Fetched? && f.json.programNode.Some? ==> code == f.json.programNode.value
    ensures f.Fetched? && f.json.programNode.None? ==> code == ""
    ensures f.FetchFailed? ==> code == Popup(f.message)
  {
    match f
    case Fetched(json) => json.programNode.GetOr("")
    case FetchFailed(message) => Popup(message)
  }

  /**
   * The code `generatePreambleScriptCode` adds: non-empty only for the first
   * node when the backend answers with a non-empty `preamble`, and then that
   * preamble; every error gives the empty string.
   */
  function PreambleCode(isFirst: bool, f: FetchResult): (code: string)
    ensures code != "" <==> isFirst && f.Fetched? && f.json.preamble.Some? && f.json.preamble.value != ""
    ensures code != "" ==> code == f.json.preamble.value
  {
    if isFirst then
      match f
      case Fetched(json) => json.preamble.GetOr("")
      case FetchFailed(_) => ""
    else
      ""
  }

  /** The host's validation result: validity and the message key shown with it. */
  datatype ValidationResponse = ValidationResponse(isValid: bool, errorMessageKey: Option<string>)

  /**
   * `validate`: valid exactly when the backend says `valid: true`, with its
   * `status` as message; when the fetch fails, invalid with the error text.
   */
  function Validate(f: FetchResult): (r: ValidationResponse)
    ensures f.Fetched? ==> (r.isValid <==> f.json.valid == Some(true)) && r.errorMessageKey == f.json.status
    ensures f.FetchFailed? ==> !r.isValid && r.errorMessageKey == Some(f.message)
  {
    match f
    case Fetched(json) => ValidationResponse(json.valid == Some(true), json.status)
    case FetchFailed(message) => ValidationResponse(false, Some(message))
  }

  /** A non-OK HTTP status makes the node invalid with "Backend error: <status>". */
  lemma ValidateHttpError(status: nat, body: JsonBody)
    requires !IsOk(status)
    ensures Validate(FetchBackendJson(HttpResponse(status, body)))
            == ValidationResponse(false, Some(BackendErrorText(status)))
  {
  }

  /** The host's script builder: `addRaw` appends a fragment of code. */
  class ScriptBuilder {
    var fragments: seq<string>

    constructor ()
      ensures fragments == []
    {
      fragments := [];
    }

    method AddRaw(code: string)
      modifies this
      ensures fragments == old(fragments) + [code]
    {
      fragments := fragments + [code];
    }
  }

  /** `generateScriptCodeBefore`: a new builder holding one fragment. */
  method GenerateScriptCodeBefore(reply: HttpReply) returns (builder: ScriptBuilder)
    ensures fresh(builder)
    ensures builder.fragments == [CodeBeforeChildren(FetchBackendJson(reply))]
  {
    builder := new ScriptBuilder();
    var result := FetchBackendJson(reply);
    match result {
      case Fetched(json) =>
        builder.AddRaw(json.programNode.GetOr(""));
      case FetchFailed(message) =>
        builder.AddRaw(Popup(message));
    }
  }

  /**
   * `generatePreambleScriptCode`: the backend is asked only when this node
   * is the first; the builder holds one fragment.
   */
  method GeneratePreambleScriptCode(node: ProgramNode, tree: seq<ProgramNode>, le: (string, string) -> bool,
                                    reply: HttpReply)
    returns (builder: ScriptBuilder)
    requires CandidatesHashed(tree)
    ensures fresh(builder)
    ensures builder.fragments == [PreambleCode(IsFirstProgramNode(node, tree, le), FetchBackendJson(reply))]
  {
    builder := new ScriptBuilder();
    if IsFirstProgramNode(node, tree, le) {
      var result := FetchBackendJson(reply);
      match result {
        case Fetched(json) =>
          builder.AddRaw(json.preamble.GetOr(""));
        case FetchFailed(_) =>
          builder.AddRaw("");
      }
    } else {
      builder.AddRaw("");
    }
  }
}
