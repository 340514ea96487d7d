/**
 * The workspace registry of `src/models/workspace.rs`: a named list of requests and a list
 * of environments, each entry carrying a numeric id. New entries take the last id plus one;
 * lookups and edits act on the first entry with the requested id. Saving to disk is not
 * part of this model.
 */
module Models {
  import opened Wrappers
  import opened Text

  /** The template a new request starts with. */
  const DEFAULT_TEMPLATE: string := "# TODO: DOCUMENT ME\n\nGET http://localhost/\n"

  /** The payload a new environment starts with. */
  const DEFAULT_ENVIRONMENT: string := "%YAML 1.2\n---\n"

  /** The life cycle of a request or an environment. */
  datatype Status = Active | BeingCreated | Deleted

  /** A saved request. The workspace owns its requests, so each one is a value in its list. */
  datatype Request = Request(id: nat, name: string, template: string, status: Status) {
    /** `active`: the request is shown as a live request. */
    predicate IsActive() {
      status == Active
    }

    /** `activate`: the request becomes active; nothing else changes. */
    function Activate(): (r: Request)
      ensures r.IsActive()
      ensures r.id == id && r.name == name && r.template == template
    {
      this.(status := Active)
    }

    /** `soft_delete`: the request is marked deleted and is no longer active. */
    function SoftDelete(): (r: Request)
      ensures !r.IsActive() && r.status == Deleted
      ensures r.id == id && r.name == name && r.template == template
    {
      this.(status := Deleted)
    }

    /** `set_name`. */
    function WithName(newName: string): (r: Request)
      ensures r.name == newName
      ensures r.id == id && r.template == template && r.status == status
    {
      this.(name := newName)
    }

    /** `set_template`. */
    function WithTemplate(newTemplate: string): (r: Request)
      ensures r.template == newTemplate
      ensures r.id == id && r.name == name && r.status == status
    {
      this.(template := newTemplate)
    }
  }

  /** An environment: a named YAML payload of variables. */
  datatype Environment = Environment(id: nat, name: string, payload: string, status: Status) {
    /** `set_payload`. */
    function WithPayload(newPayload: string): (e: Environment)
      ensures e.payload == newPayload
      ensures e.id == id && e.name == name && e.status == status
    {
      this.(payload := newPayload)
    }

    /** `soft_delete`. */
    function SoftDelete(): (e: Environment)
      ensures e.status == Deleted
      ensures e.id == id && e.name == name && e.payload == payload
    {
      this.(status := Deleted)
    }
  }

  /** `Environment::new`: an active environment. */
  function NewEnvironment(id: nat, name: string, payload: string): Environment {
    Environment(id, name, payload, Active)
  }

  // ----------------------------------------------------------------------------------
  // Ids
  // ----------------------------------------------------------------------------------

  function RequestIds(rs: seq<Request>): seq<nat> {
    seq(|rs|, k requires 0 <= k < |rs| => rs[k].id)
  }

  function EnvironmentIds(es: seq<Environment>): seq<nat> {
    seq(|es|, k requires 0 <= k < |es| => es[k].id)
  }

  /** The position of the first `id` in `ids`, the entry every lookup and edit acts on. */
  function FirstIndex(ids: seq<nat>, id: nat): (r: Option<nat>)
    ensures r.Some? ==> r.value < |ids| && ids[r.value] == id
    ensures r.Some? ==> forall k :: 0 <= k < r.value ==> ids[k] != id
    ensures r.None? <==> id !in ids
  {
    if ids == [] then None
    else if ids[0] == id then Some(0)
    else
      var r := FirstIndex(ids[1..], id);
      assert ids == [ids[0]] + ids[1..];
      if r.None? then None else Some(r.value + 1)
  }

  /**
   * The id of a new entry: the last entry's id plus one, or 1 for an empty list. On strictly
   * increasing ids it is larger than every id, so it is new and the ids stay strictly
   * increasing once it is appended.
   */
  function NextId(ids: seq<nat>): (n: nat)
    ensures n >= 1
    ensures StrictlyIncreasing(ids) ==>
              (forall k :: 0 <= k < |ids| ==> ids[k] < n) && n !in ids && StrictlyIncreasing(ids + [n])
  {
    var n := if ids == [] then 1 else ids[|ids| - 1] + 1;
    assert StrictlyIncreasing(ids) ==>
             (forall k :: 0 <= k < |ids| ==> ids[k] < n) && n !in ids && StrictlyIncreasing(ids + [n]) by {
      if StrictlyIncreasing(ids) {
        AppendLarger(ids, n);
      }
    }
    n
  }

  predicate StrictlyIncreasing(ids: seq<nat>) {
    forall i, j :: 0 <= i < j < |ids| ==> ids[i] < ids[j]
  }

  /** An id above the last of strictly increasing ids is above all of them and keeps them increasing. */
  lemma AppendLarger(ids: seq<nat>, n: nat)
    requires StrictlyIncreasing(ids)
    requires ids != [] ==> ids[|ids| - 1] < n
    ensures forall k :: 0 <= k < |ids| ==> ids[k] < n
    ensures n !in ids
    ensures StrictlyIncreasing(ids + [n])
  {
    forall k | 0 <= k < |ids|
      ensures ids[k] < n
    {
      if k < |ids| - 1 {
        assert ids[k] < ids[|ids| - 1];
      }
    }
    var ext := ids + [n];
    forall i, j | 0 <= i < j < |ext|
      ensures ext[i] < ext[j]
    {
      if j == |ids| {
        assert ext[i] == ids[i];
      }
    }
  }

  /** An index holding `id` with no `id` before it is the first index. */
  lemma {:induction false} FirstIndexIs(ids: seq<nat>, id: nat, k: nat)
    requires k < |ids| && ids[k] == id
    requires forall j :: 0 <= j < k ==> ids[j] != id
    ensures FirstIndex(ids, id) == Some(k)
  {
    if k > 0 {
      FirstIndexIs(ids[1..], id, k - 1);
    }
  }

  /** Appending a fresh id makes it findable at the new last position. */
  lemma FreshIdFoundLast(ids: seq<nat>, id: nat)
    requires id !in ids
    ensures FirstIndex(ids + [id], id) == Some(|ids|)
  {
    var ext := ids + [id];
    assert forall j :: 0 <= j < |ids| ==> ext[j] == ids[j];
    FirstIndexIs(ext, id, |ids|);
  }

  // ----------------------------------------------------------------------------------
  // Edits of the first entry with an id
  // ----------------------------------------------------------------------------------

  /** What an edit of a request does to it. */
  datatype RequestEdit = Rename(name: string) | Retemplate(template: string) | Delete

  /**
   * `set_request_name` activates and renames, `set_request_template` activates and sets
   * the template, `delete_request` soft-deletes.
   */
  function ApplyEdit(r: Request, e: RequestEdit): Request {
    match e
    case Rename(name) => r.Activate().WithName(name)
    case Retemplate(template) => r.Activate().WithTemplate(template)
    case Delete => r.SoftDelete()
  }

  /** The requests after editing the first one with `id`; an unknown id changes nothing. */
  function EditRequest(rs: seq<Request>, id: nat, e: RequestEdit): seq<Request> {
    match FirstIndex(RequestIds(rs), id)
    case None => rs
    case Some(k) => rs[k := ApplyEdit(rs[k], e)]
  }

  /**
   * An edit changes only the first request with the id: every other request, the length
   * and all ids stay as they were.
   */
  lemma EditRequestFrame(rs: seq<Request>, id: nat, e: RequestEdit)
    ensures |EditRequest(rs, id, e)| == |rs|
    ensures RequestIds(EditRequest(rs, id, e)) == RequestIds(rs)
    ensures forall k :: 0 <= k < |rs| && Some(k) != FirstIndex(RequestIds(rs), id)
              ==> EditRequest(rs, id, e)[k] == rs[k]
    ensures id !in RequestIds(rs) ==> EditRequest(rs, id, e) == rs
  {
    var r := EditRequest(rs, id, e);
    assert forall k :: 0 <= k < |rs| ==> r[k].id == rs[k].id;
    assert RequestIds(r) == RequestIds(rs);
  }

  /** Renaming makes the first request with the id active under the new name, template kept. */
  lemma RenameFirst(rs: seq<Request>, id: nat, name: string)
    requires id in RequestIds(rs)
    ensures var k := FirstIndex(RequestIds(rs), id).value;
            var r := EditRequest(rs, id, Rename(name))[k];
            r.IsActive() && r.id == id && r.name == name && r.template == rs[k].template
  {
  }

  /** Re-templating makes the first request with the id active with the new template, name kept. */
  lemma RetemplateFirst(rs: seq<Request>, id: nat, template: string)
    requires id in RequestIds(rs)
    ensures var k := FirstIndex(RequestIds(rs), id).value;
            var r := EditRequest(rs, id, Retemplate(template))[k];
            r.IsActive() && r.id == id && r.template == template && r.name == rs[k].name
  {
  }

  /** Deleting marks the first request with the id deleted; name and template are kept. */
  lemma DeleteFirst(rs: seq<Request>, id: nat)
    requires id in RequestIds(rs)
    ensures var k := FirstIndex(RequestIds(rs), id).value;
            var r := EditRequest(rs, id, Delete)[k];
            r.status == Deleted && !r.IsActive() && r.id == id
            && r.name == rs[k].name && r.template == rs[k].template
  {
  }

  /** What an edit of an environment does to it. */
  datatype EnvironmentEdit = SetPayload(payload: string) | SoftDeleteEnvironment

  function ApplyEnvironmentEdit(env: Environment, e: EnvironmentEdit): Environment {
    match e
    case SetPayload(payload) => env.WithPayload(payload)
    case SoftDeleteEnvironment => env.SoftDelete()
  }

  /** The environments after editing the first one with `id`; an unknown id changes nothing. */
  function EditEnvironment(es: seq<Environment>, id: nat, e: EnvironmentEdit): seq<Environment> {
    match FirstIndex(EnvironmentIds(es), id)
    case None => es
    case Some(k) => es[k := ApplyEnvironmentEdit(es[k], e)]
  }

  /** An edit changes only the first environment with the id, and no id. */
  lemma EditEnvironmentFrame(es: seq<Environment>, id: nat, e: EnvironmentEdit)
    ensures |EditEnvironment(es, id, e)| == |es|
    ensures EnvironmentIds(EditEnvironment(es, id, e)) == EnvironmentIds(es)
    ensures forall k :: 0 <= k < |es| && Some(k) != FirstIndex(EnvironmentIds(es), id)
              ==> EditEnvironment(es, id, e)[k] == es[k]
    ensures id !in EnvironmentIds(es) ==> EditEnvironment(es, id, e) == es
  {
    var r := EditEnvironment(es, id, e);
    assert forall k :: 0 <= k < |es| ==> r[k].id == es[k].id;
    assert EnvironmentIds(r) == EnvironmentIds(es);
  }

  /** The request `create_request` appends to a list with ids `ids`. */
  function NewRequest(ids: seq<nat>): (r: Request)
    ensures r.id == NextId(ids) && r.status == BeingCreated && !r.IsActive()
    ensures r.name == "Req #" + DecimalString(r.id) && r.template == DEFAULT_TEMPLATE
  {
    var id := NextId(ids);
    Request(id, "Req #" + DecimalString(id), DEFAULT_TEMPLATE, BeingCreated)
  }

  /**
   * Creating a request keeps strictly increasing ids strictly increasing, and the lookup of
   * the new id finds the new request.
   */
  lemma CreateRequestFresh(rs: seq<Request>)
    requires StrictlyIncreasing(RequestIds(rs))
    ensures var r := NewRequest(RequestIds(rs));
            StrictlyIncreasing(RequestIds(rs + [r]))
            && FirstIndex(RequestIds(rs + [r]), r.id) == Some(|rs|)
  {
    var r := NewRequest(RequestIds(rs));
    assert RequestIds(rs + [r]) == RequestIds(rs) + [r.id];
    FreshIdFoundLast(RequestIds(rs), r.id);
  }

  /** Creating an environment keeps strictly increasing ids strictly increasing and the new one findable. */
  lemma CreateEnvironmentFresh(es: seq<Environment>, name: string)
    requires StrictlyIncreasing(EnvironmentIds(es))
    ensures var e := NewEnvironment(NextId(EnvironmentIds(es)), name, DEFAULT_ENVIRONMENT);
            StrictlyIncreasing(EnvironmentIds(es + [e]))
            && FirstIndex(EnvironmentIds(es + [e]), e.id) == Some(|es|)
  {
    var e := NewEnvironment(NextId(EnvironmentIds(es)), name, DEFAULT_ENVIRONMENT);
    assert EnvironmentIds(es + [e]) == EnvironmentIds(es) + [e.id];
    FreshIdFoundLast(EnvironmentIds(es), e.id);
  }

  // ----------------------------------------------------------------------------------
  // The workspace
  // ----------------------------------------------------------------------------------

  class Workspace {
    var filepath: string
    var name: string
    var requests: seq<Request>
    var environments: seq<Environment>

    /** Ids of both lists strictly increase, as creating entries keeps them. */
    ghost predicate Valid()
      reads this
    {
      StrictlyIncreasing(RequestIds(requests)) && StrictlyIncreasing(EnvironmentIds(environments))
    }

    /** `Workspace::new`: no requests and the single environment `Dev`. */
    constructor (filepath: string)
      ensures this.filepath == filepath && name == "Rustaman"
      ensures requests == [] && environments == [NewEnvironment(1, "Dev", DEFAULT_ENVIRONMENT)]
      ensures Valid()
    {
      this.filepath := filepath;
      name := "Rustaman";
      requests := [];
      environments := [NewEnvironment(1, "Dev", DEFAULT_ENVIRONMENT)];
    }

    /** `request`: the first request with the id, if any. */
    method FindRequest(id: nat) returns (r: Option<Request>)
      ensures r.None? <==> id !in RequestIds(requests)
      ensures r.Some? ==> r.value == requests[FirstIndex(RequestIds(requests), id).value]
    {
      var k := 0;
      while k < |requests|
        invariant k <= |requests|
        invariant forall j :: 0 <= j < k ==> requests[j].id != id
      {
        if requests[k].id == id {
          FirstIndexIs(RequestIds(requests), id, k);
          return Some(requests[k]);
        }
        k := k + 1;
      }
      return None;
    }

    /** `create_request`: appends a new request and returns it. */
    method CreateRequest() returns (r: Request)
      modifies this
      ensures r == NewRequest(RequestIds(old(requests)))
      ensures requests == old(requests) + [r]
      ensures environments == old(environments) && name == old(name) && filepath == old(filepath)
      ensures old(Valid()) ==> Valid()
    {
      var id := if |requests| == 0 then 1 else requests[|requests| - 1].id + 1;
      var reqName := "Req #" + DecimalString(id);
      r := Request(id, reqName, DEFAULT_TEMPLATE, BeingCreated);
      if Valid() {
        CreateRequestFresh(requests);
      }
      requests := requests + [r];
    }

    /**
     * The loop of `set_request_name`, `set_request_template` and `delete_request`: the first
     * request with the id is edited and the loop stops.
     */
    method EditFirstRequest(id: nat, e: RequestEdit)
      modifies this
      ensures requests == EditRequest(old(requests), id, e)
      ensures environments == old(environments) && name == old(name) && filepath == old(filepath)
      ensures old(Valid()) ==> Valid()
    {
      EditRequestFrame(requests, id, e);
      var k := 0;
      while k < |requests|
        invariant k <= |requests| && requests == old(requests)
        invariant forall j :: 0 <= j < k ==> requests[j].id != id
      {
        if requests[k].id == id {
          FirstIndexIs(RequestIds(requests), id, k);
          requests := requests[k := ApplyEdit(requests[k], e)];
          return;
        }
        k := k + 1;
      }
    }

    /** `set_request_name`: activates and renames the first request with the id. */
    method SetRequestName(id: nat, newName: string)
      modifies this
      ensures requests == EditRequest(old(requests), id, Rename(newName))
      ensures environments == old(environments) && name == old(name) && filepath == old(filepath)
      ensures old(Valid()) ==> Valid()
    {
      EditFirstRequest(id, Rename(newName));
    }

    /** `delete_request`: soft-deletes the first request with the id. */
    method DeleteRequest(id: nat)
      modifies this
      ensures requests == EditRequest(old(requests), id, Delete)
      ensures environments == old(environments) && name == old(name) && filepath == old(filepath)
      ensures old(Valid()) ==> Valid()
    {
      EditFirstRequest(id, Delete);
    }

    /** `set_request_template`: activates the first request with the id and sets its template. */
    method SetRequestTemplate(id: nat, template: string)
      modifies this
      ensures requests == EditRequest(old(requests), id, Retemplate(template))
      ensures environments == old(environments) && name == old(name) && filepath == old(filepath)
      ensures old(Valid()) ==> Valid()
    {
      EditFirstRequest(id, Retemplate(template));
    }

    /** `environment`: the first environment with the id, if any. */
    method FindEnvironment(id: nat) returns (r: Option<Environment>)
      ensures r.None? <==> id !in EnvironmentIds(environments)
      ensures r.Some? ==> r.value == environments[FirstIndex(EnvironmentIds(environments), id).value]
    {
      var k := 0;
      while k < |environments|
        invariant k <= |environments|
        invariant forall j :: 0 <= j < k ==> environments[j].id != id
      {
        if environments[k].id == id {
          FirstIndexIs(EnvironmentIds(environments), id, k);
          return Some(environments[k]);
        }
        k := k + 1;
      }
      return None;
    }

    /** `create_environment`: appends an environment with the default payload and returns it. */
    method CreateEnvironment(envName: string) returns (env: Environment)
      modifies this
      ensures env == NewEnvironment(NextId(EnvironmentIds(old(environments))), envName, DEFAULT_ENVIRONMENT)
      ensures environments == old(environments) + [env]
      ensures requests == old(requests) && name == old(name) && filepath == old(filepath)
      ensures old(Valid()) ==> Valid()
    {
      var id := if |environments| == 0 then 1 else environments[|environments| - 1].id + 1;
      env := NewEnvironment(id, envName, DEFAULT_ENVIRONMENT);
      if Valid() {
        CreateEnvironmentFresh(environments, envName);
      }
      environments := environments + [env];
    }

    /** The loop of `set_environ_payload` and `delete_environment`. */
    method EditFirstEnvironment(id: nat, e: EnvironmentEdit)
      modifies this
      ensures environments == EditEnvironment(old(environments), id, e)
      ensures requests == old(requests) && name == old(name) && filepath == old(filepath)
      ensures old(Valid()) ==> Valid()
    {
      EditEnvironmentFrame(environments, id, e);
      var k := 0;
      while k < |environments|
        invariant k <= |environments| && environments == old(environments)
        invariant forall j :: 0 <= j < k ==> environments[j].id != id
      {
        if environments[k].id == id {
          FirstIndexIs(EnvironmentIds(environments), id, k);
          environments := environments[k := ApplyEnvironmentEdit(environments[k], e)];
          return;
        }
        k := k + 1;
      }
    }

    /** `set_environ_payload`: replaces the payload of the first environment with the id. */
    method SetEnvironPayload(id: nat, payload: string)
      modifies this
      ensures environments == EditEnvironment(old(environments), id, SetPayload(payload))
      ensures requests == old(requests) && name == old(name) && filepath == old(filepath)
      ensures old(Valid()) ==> Valid()
    {
      EditFirstEnvironment(id, SetPayload(payload));
    }

    /** `delete_environment`: soft-deletes the first environment with the id. */
    method DeleteEnvironment(id: nat)
      modifies this
      ensures environments == EditEnvironment(old(environments), id, SoftDeleteEnvironment)
      ensures requests == old(requests) && name == old(name) && filepath == old(filepath)
      ensures old(Valid()) ==> Valid()
    {
      EditFirstEnvironment(id, SoftDeleteEnvironment);
    }
  }
}
