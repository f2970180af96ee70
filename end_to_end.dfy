/**
 * The backend's response as the program node's hooks receive it: the JSON
 * object built by `read_params`, sent with HTTP status 200 and parsed by the
 * editor, with all four fields present.
 */
module EndToEnd {
  import opened Wrappers
  import Strings
  import RestApi
  import opened ProgramBehavior

  /** The parsed form of a backend response. */
  function Received(r: RestApi.JsonResponse): BackendJson {
    BackendJson(Some(r.programNode), Some(r.preamble), Some(r.valid), Some(r.status))
  }

  /** What `fetchBackendJson` yields for a backend response served with status 200. */
  function Served(r: RestApi.JsonResponse): FetchResult {
    FetchBackendJson(HttpResponse(200, Parsed(Received(r))))
  }

  /**
   * A program the robot hands over reaches the editor split in two: the code
   * before children is its body, the first node's preamble is its header
   * block, and a preamble is emitted exactly when the program has one.
   */
  lemma RobotProgramReachesEditor(text: string)
    ensures var sections := RestApi.SplitProgramSections(text);
      var served := Served(RestApi.FreshResponse(RestApi.Program(text)));
      && CodeBeforeChildren(served) == sections.programNode
      && PreambleCode(true, served) == sections.preamble
      && (PreambleCode(true, served) != "" <==> RestApi.HasHeaderBlock(text))
      && PreambleCode(false, served) == ""
  {
    RestApi.FreshResponseFields(RestApi.Program(text));
    RestApi.PreambleIffHeader(text);
  }

  /**
   * The validity the backend computes is the validity the editor shows: a
   * program is accepted exactly when it is not blank, with the message "ok".
   */
  lemma EditorValidatesLikeBackend(text: string)
    ensures Validate(Served(RestApi.FreshResponse(RestApi.Program(text))))
            == ValidationResponse(!Strings.Blank(text), Some(RestApi.StatusOk))
  {
    RestApi.FreshResponseFields(RestApi.Program(text));
  }

  /**
   * When the robot cannot be reached, the editor shows the robot's error as
   * the validation message, and the node contributes no code.
   */
  lemma RobotFailureReachesEditor(message: string)
    ensures var served := Served(RestApi.FreshResponse(RestApi.Failure(message)));
      && Validate(served) == ValidationResponse(false, Some(message))
      && CodeBeforeChildren(served) == ""
      && PreambleCode(true, served) == ""
  {
    RestApi.FreshResponseFields(RestApi.Failure(message));
  }
}
