/** The profile form's list editing (skills and goals) and the client-side
    part of submitting it: the token and name checks, the request payload,
    the error message shown for each failure, and the reset after a
    successful first-time submit. */
module ProfileForm {
  import opened Base

  // ---------------------------------------------------------------------
  // form state

  /** `profilePicture`: nothing, the stored picture's URL loaded from the
      user record, or a file chosen in the file input. */
  datatype Picture = NoPicture | StoredUrl(url: string) | ChosenFile(fileName: string)

  datatype FormData = FormData(
    name: string, skills: seq<string>, goals: seq<string>,
    mode: string, availability: string, profilePicture: Picture)

  /** The initial state of `formData`, also used for the reset. */
  const EMPTY_FORM := FormData("", [], [], "Online", "", NoPicture)

  /** The form data with the two text fields that feed the lists. */
  datatype Form = Form(data: FormData, skillInput: string, goalInput: string)

  predicate NoDuplicates(s: seq<string>)
  {
    forall i, j :: 0 <= i < j < |s| ==> s[i] != s[j]
  }

  // ---------------------------------------------------------------------
  // add and remove, shared by skills and goals

  /** The list and the input field after pressing "add": the trimmed input
      is appended when it is non-empty and not yet in the list, and only
      then is the input cleared. */
  function AddItem(list: seq<string>, input: string): (r: (seq<string>, string))
    ensures r.0 != list <==> Trim(input) != "" && Trim(input) !in list
    ensures r.0 != list ==> r.0 == list + [Trim(input)] && r.1 == ""
    ensures r.0 == list ==> r.1 == input
  {
    var t := Trim(input);
    if t != "" && t !in list then (list + [t], "") else (list, input)
  }

  /** Adding keeps a list free of duplicates. */
  lemma AddKeepsNoDuplicates(list: seq<string>, input: string)
    requires NoDuplicates(list)
    ensures NoDuplicates(AddItem(list, input).0)
  {
    var r := AddItem(list, input).0;
    if r != list {
      forall i, j | 0 <= i < j < |r| ensures r[i] != r[j] {
        if j == |list| {
          assert r[i] == list[i];
        }
      }
    }
  }

  /** Pressing "add" twice adds at most once. */
  lemma AddTwiceAddsOnce(list: seq<string>, input: string)
    ensures var (l1, i1) := AddItem(list, input);
      AddItem(l1, i1) == (l1, i1)
  {
    var (l1, i1) := AddItem(list, input);
    if l1 != list {
      assert Trim(i1) == "" by {
        assert i1 == "";
      }
    }
  }

  /** `list.filter(x => x !== item)`. */
  function RemoveItem(list: seq<string>, item: string): (r: seq<string>)
    ensures item !in r
    ensures IsSubsequence(r, list)
    ensures forall x :: x in r <==> x in list && x != item
    ensures forall x :: multiset(r)[x] == if x == item then 0 else multiset(list)[x]
    ensures item !in list ==> r == list
  {
    KeepIsSubsequence(list, x => x != item);
    forall x ensures x in Keep(list, x => x != item) <==> x in list && x != item {
      KeepMembership(list, x => x != item, x);
    }
    forall x ensures multiset(Keep(list, x => x != item))[x] == if x == item then 0 else multiset(list)[x] {
      KeepMultiplicity(list, x => x != item, x);
    }
    RemoveAbsent(list, item);
    Keep(list, x => x != item)
  }

  lemma RemoveAbsent(list: seq<string>, item: string)
    ensures item !in list ==> Keep(list, x => x != item) == list
  {
    if item !in list {
      KeepAll(list, x => x != item);
    }
  }

  /** Removing keeps a list free of duplicates. */
  lemma {:induction false} RemoveKeepsNoDuplicates(list: seq<string>, item: string)
    requires NoDuplicates(list)
    ensures NoDuplicates(RemoveItem(list, item))
  {
    if list != [] {
      RemoveKeepsNoDuplicates(list[1..], item);
      var rest := RemoveItem(list[1..], item);
      assert RemoveItem(list, item) == (if list[0] != item then [list[0]] else []) + rest;
      if list[0] != item {
        assert list[0] !in rest;
        var r := [list[0]] + rest;
        forall i, j | 0 <= i < j < |r| ensures r[i] != r[j] {
          if i == 0 {
            assert r[j] == rest[j - 1];
          } else {
            assert r[i] == rest[i - 1] && r[j] == rest[j - 1];
          }
        }
      }
    }
  }

  // ---------------------------------------------------------------------
  // handleSkillAdd / handleSkillRemove / handleGoalAdd / handleGoalRemove

  function SkillAdd(f: Form): (r: Form)
    ensures r.data.goals == f.data.goals && r.goalInput == f.goalInput
    ensures r.data == f.data.(skills := AddItem(f.data.skills, f.skillInput).0)
    ensures r.skillInput == AddItem(f.data.skills, f.skillInput).1
  {
    var (skills, input) := AddItem(f.data.skills, f.skillInput);
    f.(data := f.data.(skills := skills), skillInput := input)
  }

  function SkillRemove(f: Form, skill: string): (r: Form)
    ensures r.data.goals == f.data.goals && r.skillInput == f.skillInput && r.goalInput == f.goalInput
    ensures r.data == f.data.(skills := RemoveItem(f.data.skills, skill))
  {
    f.(data := f.data.(skills := RemoveItem(f.data.skills, skill)))
  }

  function GoalAdd(f: Form): (r: Form)
    ensures r.data.skills == f.data.skills && r.skillInput == f.skillInput
    ensures r.data == f.data.(goals := AddItem(f.data.goals, f.goalInput).0)
    ensures r.goalInput == AddItem(f.data.goals, f.goalInput).1
  {
    var (goals, input) := AddItem(f.data.goals, f.goalInput);
    f.(data := f.data.(goals := goals), goalInput := input)
  }

  function GoalRemove(f: Form, goal: string): (r: Form)
    ensures r.data.skills == f.data.skills && r.skillInput == f.skillInput && r.goalInput == f.goalInput
    ensures r.data == f.data.(goals := RemoveItem(f.data.goals, goal))
  {
    f.(data := f.data.(goals := RemoveItem(f.data.goals, goal)))
  }

  /** The four list handlers keep both lists free of duplicates. */
  lemma ListHandlersKeepNoDuplicates(f: Form, item: string)
    requires NoDuplicates(f.data.skills) && NoDuplicates(f.data.goals)
    ensures NoDuplicates(SkillAdd(f).data.skills) && NoDuplicates(SkillAdd(f).data.goals)
    ensures NoDuplicates(GoalAdd(f).data.skills) && NoDuplicates(GoalAdd(f).data.goals)
    ensures NoDuplicates(SkillRemove(f, item).data.skills) && NoDuplicates(SkillRemove(f, item).data.goals)
    ensures NoDuplicates(GoalRemove(f, item).data.skills) && NoDuplicates(GoalRemove(f, item).data.goals)
  {
    AddKeepsNoDuplicates(f.data.skills, f.skillInput);
    AddKeepsNoDuplicates(f.data.goals, f.goalInput);
    RemoveKeepsNoDuplicates(f.data.skills, item);
    RemoveKeepsNoDuplicates(f.data.goals, item);
  }

  // ---------------------------------------------------------------------
  // handleSubmit

  /** The multipart body sent to the profile update endpoint. */
  datatype Payload = Payload(
    name: string, skills: seq<string>, goals: seq<string>,
    mode: string, availability: string, picture: Option<string>)

  /** What an unsuccessful reply body parses to: not JSON at all, JSON
      `null`, or an object whose `message` is `None` when missing or empty. */
  datatype ErrorBody = Unparseable | NullJson | ErrorJson(message: Option<string>)

  /** How the `fetch` ends: it rejects, the reply is not ok, or the reply
      is ok and its body is JSON (or fails to parse with a message). For an
      ok JSON body, `nullBody` says whether it is `null`, and
      `callbackError` is the message of the error `onProfileUpdate` throws,
      if it throws. */
  datatype Response =
    | Rejected(errorMessage: string)
    | NotOk(status: nat, body: ErrorBody)
    | OkJson(nullBody: bool, callbackError: Option<string>)
    | OkBadJson(parseError: string)

  /** The state the form is left in after `handleSubmit`, with the request
      it sent (if any) and whether `onProfileUpdate` was called. */
  datatype SubmitOutcome = SubmitOutcome(
    request: Option<Payload>, data: FormData, error: string, success: string,
    notified: bool, loading: bool)

  const NO_TOKEN_MSG := "No authentication token found"
  const NAME_REQUIRED_MSG := "Name is required"
  const UNKNOWN_ERROR_MSG := "Unknown error"
  const FALLBACK_MSG := "Something went wrong"
  const SUCCESS_MSG := "Profile updated successfully!"
  /** The `TypeError` messages of reading a property of `null`, in V8's wording. */
  const NULL_MESSAGE_MSG := "Cannot read properties of null (reading 'message')"
  const NULL_USER_MSG := "Cannot read properties of null (reading 'user')"

  function DecimalString(n: nat): (r: string)
    ensures r != []
    ensures forall i :: 0 <= i < |r| ==> '0' <= r[i] <= '9'
  {
    if n < 10 then [('0' as int + n) as char]
    else DecimalString(n / 10) + [('0' as int + n % 10) as char]
  }

  /** The form fields as sent: the name trimmed, an empty mode replaced by
      "Online", and the picture only when it is a chosen file. */
  function BuildPayload(d: FormData): (p: Payload)
    ensures p.name == Trim(d.name) && p.skills == d.skills && p.goals == d.goals
    ensures p.mode != "" && p.mode == (if d.mode == "" then "Online" else d.mode)
    ensures p.availability == d.availability
    ensures p.picture.Some? <==> d.profilePicture.ChosenFile?
    ensures d.profilePicture.ChosenFile? ==> p.picture == Some(d.profilePicture.fileName)
  {
    Payload(
      Trim(d.name), d.skills, d.goals,
      if d.mode == "" then "Online" else d.mode,
      d.availability,
      if d.profilePicture.ChosenFile? then Some(d.profilePicture.fileName) else None)
  }

  /** The message of the error thrown for a reply that is not ok: the
      `Error` built from the body, or the `TypeError` of reading `message`
      from a `null` body. */
  function NotOkMessage(status: nat, body: ErrorBody): (m: string)
    ensures m != ""
    ensures body == Unparseable ==> m == UNKNOWN_ERROR_MSG
    ensures body == NullJson ==> m == NULL_MESSAGE_MSG
    ensures body.ErrorJson? && body.message.Some? && body.message.value != "" ==> m == body.message.value
  {
    match body
    case Unparseable => UNKNOWN_ERROR_MSG
    case NullJson => NULL_MESSAGE_MSG
    case ErrorJson(message) =>
      if message.Some? && message.value != "" then message.value
      else "HTTP error! status: " + DecimalString(status)
  }

  /** `err.message || "Something went wrong"`. */
  function Shown(message: string): (m: string)
    ensures m != ""
  {
    if message == "" then FALLBACK_MSG else message
  }

  /** An ok JSON reply whose handling throws after `setSuccess`: reading
      `user` from a `null` body, or a throwing `onProfileUpdate`. */
  predicate ThrowsAfterSuccess(hasCallback: bool, response: Response)
  {
    response.OkJson? && hasCallback && (response.nullBody || response.callbackError.Some?)
  }

  /** `handleSubmit` on form data `d`, with the stored token, the
      `isEditing` prop, whether an `onProfileUpdate` callback was passed,
      and how the request ends. */
  function Submit(d: FormData, token: Option<string>, isEditing: bool, hasCallback: bool, response: Response)
    : (o: SubmitOutcome)
    ensures !o.loading
    ensures o.success != "" || o.error != ""
    ensures o.request.Some? <==> token.Some? && token.value != "" && Trim(d.name) != ""
    ensures o.request.Some? ==> o.request == Some(BuildPayload(d))
    ensures o.success != "" <==> o.request.Some? && response.OkJson?
    ensures o.success != "" ==> o.success == SUCCESS_MSG
    ensures o.success != "" && o.error != "" <==> o.request.Some? && ThrowsAfterSuccess(hasCallback, response)
    ensures o.notified <==> o.request.Some? && response.OkJson? && hasCallback && !response.nullBody
    ensures o.data == if o.error == "" && !isEditing then EMPTY_FORM else d
  {
    if token.None? || token.value == "" then
      SubmitOutcome(None, d, NO_TOKEN_MSG, "", false, false)
    else if Trim(d.name) == "" then
      SubmitOutcome(None, d, NAME_REQUIRED_MSG, "", false, false)
    else
      var request := Some(BuildPayload(d));
      match response
      case Rejected(message) =>
        SubmitOutcome(request, d, Shown(message), "", false, false)
      case NotOk(status, body) =>
        SubmitOutcome(request, d, Shown(NotOkMessage(status, body)), "", false, false)
      case OkBadJson(message) =>
        SubmitOutcome(request, d, Shown(message), "", false, false)
      case OkJson(nullBody, callbackError) =>
        if hasCallback && nullBody then
          SubmitOutcome(request, d, Shown(NULL_USER_MSG), SUCCESS_MSG, false, false)
        else if hasCallback && callbackError.Some? then
          SubmitOutcome(request, d, Shown(callbackError.value), SUCCESS_MSG, true, false)
        else
          SubmitOutcome(request, if isEditing then d else EMPTY_FORM, "", SUCCESS_MSG, hasCallback, false)
  }

  /** A blank name is refused before any request is made, whatever the
      server would have answered. */
  lemma NameRequiredBeforeRequest(d: FormData, token: string, isEditing: bool, hasCallback: bool, response: Response)
    requires token != "" && Trim(d.name) == ""
    ensures var o := Submit(d, Some(token), isEditing, hasCallback, response);
      o.request == None && o.error == NAME_REQUIRED_MSG && o.data == d
  {
  }

  /** The error shown for each way the request can fail. */
  lemma SubmitErrorMessages(d: FormData, token: string, isEditing: bool, hasCallback: bool, response: Response)
    requires token != "" && Trim(d.name) != ""
    ensures var o := Submit(d, Some(token), isEditing, hasCallback, response);
      && (response.NotOk? && response.body == Unparseable ==> o.error == UNKNOWN_ERROR_MSG)
      && (response.NotOk? && response.body == NullJson ==> o.error == NULL_MESSAGE_MSG)
      && (response.NotOk? && response.body == ErrorJson(None) ==>
            o.error == "HTTP error! status: " + DecimalString(response.status))
      && (response.Rejected? ==> o.error == Shown(response.errorMessage))
      && (response.OkBadJson? ==> o.error == Shown(response.parseError))
      && (response.OkJson? && hasCallback && response.nullBody ==> o.error == NULL_USER_MSG)
      && (response.OkJson? && hasCallback && !response.nullBody && response.callbackError.Some? ==>
            o.error == Shown(response.callbackError.value))
  {
    var o := Submit(d, Some(token), isEditing, hasCallback, response);
    match response
    case NotOk(status, body) =>
      var m := NotOkMessage(status, body);
      assert o.error == Shown(m);
      assert Shown(m) == m;
    case Rejected(message) =>
      assert o.error == Shown(message);
    case OkBadJson(message) =>
      assert o.error == Shown(message);
    case OkJson(nullBody, callbackError) =>
      if hasCallback && !nullBody && callbackError.Some? {
        assert o.error == Shown(callbackError.value);
      }
  }

  /** A successful first-time submit that runs to the end clears the whole
      form, lists included. */
  lemma SuccessResetsForm(d: FormData, token: string, hasCallback: bool, response: Response)
    requires token != "" && Trim(d.name) != ""
    requires response.OkJson? && !ThrowsAfterSuccess(hasCallback, response)
    ensures var o := Submit(d, Some(token), false, hasCallback, response);
      o.data.skills == [] && o.data.goals == [] && o.data.name == "" && o.data.mode == "Online"
      && o.data.profilePicture == NoPicture && o.success == SUCCESS_MSG && o.error == ""
  {
  }

  /** An ok reply whose handling throws after `setSuccess` shows the
      success and the error together, and the reset is skipped. */
  lemma ThrowAfterSuccessShowsBoth(d: FormData, token: string, isEditing: bool, hasCallback: bool, response: Response)
    requires token != "" && Trim(d.name) != ""
    requires ThrowsAfterSuccess(hasCallback, response)
    ensures var o := Submit(d, Some(token), isEditing, hasCallback, response);
      o.success == SUCCESS_MSG && o.error != "" && o.data == d
  {
  }
}
