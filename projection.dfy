/**
 * Field projection of `SaneSerializerMixin`: once the base serializer has built
 * its field map, a serializer that has a request in its context drops every
 * declared field that is not in the intersection of the non-empty groups among
 * the declared fields, the fields accessible for the request's method (readable
 * for GET, writable otherwise) and, for GET only, the fields named in the
 * comma-separated `fields` query parameter.
 */
module FieldProjection {
  import opened Wrappers
  import opened Requests
  import opened PyStr

  /** Why construction fails. */
  datatype InitError =
    | IntersectionWithoutGroups  // `set.intersection()` with no argument raises TypeError

  /** The query parameter that names the requested fields, and its separator. */
  const FieldsParam: string := "fields"
  const FieldSeparator: string := ","

  /** The request is a read: its method, lower-cased, is `get`. */
  predicate IsRead(request: Request)
  {
    Lower(request.httpMethod) == "get"
  }

  /** `query_params.get("fields")`. */
  function FieldsString(request: Request): (r: Option<string>)
  {
    if FieldsParam in request.queryParams then Some(request.queryParams[FieldsParam]) else None
  }

  /** `accessible_fields`: readable fields for GET, writable fields for every other method. */
  function AccessibleFields(request: Request, readable: set<string>, writable: set<string>): (r: set<string>)
  {
    if IsRead(request) then readable else writable
  }

  /** `requested_fields`: the names in a non-empty `fields` parameter of a GET, None otherwise. */
  function RequestedFields(request: Request): (r: Option<set<string>>)
    ensures r.Some? <==> IsRead(request) && FieldsString(request).Some? && FieldsString(request).value != ""
    ensures r.Some? ==> r.value != {}
    ensures r.Some? ==> forall f :: f in r.value <==> f in Split(FieldsString(request).value, FieldSeparator)
  {
    var fieldsStr := FieldsString(request);
    if IsRead(request) && fieldsStr.Some? && fieldsStr.value != "" then
      var names := Split(fieldsStr.value, FieldSeparator);
      var requested := set f | f in names;
      assert names[0] in requested;
      Some(requested)
    else None
  }

  /** Python truthiness of a group: present and non-empty. */
  predicate Truthy(group: Option<set<string>>)
  {
    group.Some? && group.value != {}
  }

  /** A group lets `x` through: it is falsy, so imposes nothing, or it holds `x`. */
  predicate Admits(group: Option<set<string>>, x: string)
  {
    !Truthy(group) || x in group.value
  }

  /** `x` belongs to every set of `groups`. */
  predicate InAll(x: string, groups: seq<set<string>>)
  {
    forall k :: 0 <= k < |groups| ==> x in groups[k]
  }

  /** Every group of `groups` lets `x` through. */
  predicate AdmittedByAll(x: string, groups: seq<Option<set<string>>>)
  {
    forall k :: 0 <= k < |groups| ==> Admits(groups[k], x)
  }

  /** `field_groups`: declared, accessible and requested, in that order. */
  function FieldGroups(available: set<string>, request: Request, readable: set<string>, writable: set<string>)
    : (r: seq<Option<set<string>>>)
  {
    [Some(available), Some(AccessibleFields(request, readable, writable)), RequestedFields(request)]
  }

  /** `filter(lambda group: not not group, groups)`: the truthy groups, in order. */
  function ValidGroups(groups: seq<Option<set<string>>>): (r: seq<set<string>>)
    ensures forall k :: 0 <= k < |r| ==> r[k] != {}
    ensures r == [] <==> forall k :: 0 <= k < |groups| ==> !Truthy(groups[k])
  {
    if groups == [] then []
    else (if Truthy(groups[0]) then [groups[0].value] else []) + ValidGroups(groups[1..])
  }

  /** A name is in every set of a concatenation exactly when it is in every set of both parts. */
  lemma InAllAppend(x: string, a: seq<set<string>>, b: seq<set<string>>)
    ensures InAll(x, a + b) <==> InAll(x, a) && InAll(x, b)
  {
    if InAll(x, a) && InAll(x, b) {
      forall k | 0 <= k < |a + b| ensures x in (a + b)[k] {
        if k >= |a| { assert (a + b)[k] == b[k - |a|]; }
      }
    }
    if InAll(x, a + b) {
      forall k | 0 <= k < |a| ensures x in a[k] {
        assert (a + b)[k] == a[k];
      }
      forall k | 0 <= k < |b| ensures x in b[k] {
        assert (a + b)[|a| + k] == b[k];
      }
    }
  }

  /** Keeping only the truthy groups keeps the same admitted names. */
  lemma {:induction false} ValidGroupsAdmit(groups: seq<Option<set<string>>>, x: string)
    ensures InAll(x, ValidGroups(groups)) <==> AdmittedByAll(x, groups)
  {
    if groups != [] {
      ValidGroupsAdmit(groups[1..], x);
      var head := if Truthy(groups[0]) then [groups[0].value] else [];
      InAllAppend(x, head, ValidGroups(groups[1..]));
      assert AdmittedByAll(x, groups) <==> Admits(groups[0], x) && AdmittedByAll(x, groups[1..]) by {
        if Admits(groups[0], x) && AdmittedByAll(x, groups[1..]) {
          forall k | 0 <= k < |groups| ensures Admits(groups[k], x) {
            if k > 0 { assert groups[k] == groups[1..][k - 1]; }
          }
        }
        if AdmittedByAll(x, groups) {
          forall k | 0 <= k < |groups[1..]| ensures Admits(groups[1..][k], x) {
            assert groups[1..][k] == groups[k + 1];
          }
        }
      }
    }
  }

  /** `set.intersection(*groups)`: fails when there is no group at all. */
  function Intersection(groups: seq<set<string>>): (r: Result<set<string>, InitError>)
    ensures r.Failure? <==> groups == []
    ensures r.Success? ==> forall x :: x in r.value <==> InAll(x, groups)
  {
    if |groups| == 0 then Failure(IntersectionWithoutGroups)
    else if |groups| == 1 then Success(groups[0])
    else
      var rest := Intersection(groups[1..]);
      assert forall x :: InAll(x, groups) <==> x in groups[0] && InAll(x, groups[1..]) by {
        forall x ensures InAll(x, groups) <==> x in groups[0] && InAll(x, groups[1..]) {
          if x in groups[0] && InAll(x, groups[1..]) {
            forall k | 0 <= k < |groups| ensures x in groups[k] {
              if k > 0 { assert groups[k] == groups[1..][k - 1]; }
            }
          }
          if InAll(x, groups) {
            forall k | 0 <= k < |groups[1..]| ensures x in groups[1..][k] {
              assert groups[1..][k] == groups[k + 1];
            }
          }
        }
      }
      Success(groups[0] * rest.value)
  }

  /** `final_fields`. */
  function FinalFields(available: set<string>, request: Request, readable: set<string>, writable: set<string>)
    : (r: Result<set<string>, InitError>)
  {
    Intersection(ValidGroups(FieldGroups(available, request, readable, writable)))
  }

  /**
   * The final field set is the intersection of the non-empty groups among declared,
   * accessible and requested fields; it fails exactly when all three are falsy.
   */
  lemma FinalFieldsExact(available: set<string>, request: Request, readable: set<string>, writable: set<string>)
    ensures FinalFields(available, request, readable, writable).Failure? <==>
      available == {} && AccessibleFields(request, readable, writable) == {} && RequestedFields(request).None?
    ensures FinalFields(available, request, readable, writable).Success? ==>
      forall x :: x in FinalFields(available, request, readable, writable).value <==>
        Admits(Some(available), x) && Admits(Some(AccessibleFields(request, readable, writable)), x) &&
        Admits(RequestedFields(request), x)
  {
    var groups := FieldGroups(available, request, readable, writable);
    var r := FinalFields(available, request, readable, writable);
    assert Truthy(groups[2]) <==> RequestedFields(request).Some?;
    if r.Success? {
      forall x ensures x in r.value <==> AdmittedByAll(x, groups) {
        ValidGroupsAdmit(groups, x);
      }
      forall x ensures AdmittedByAll(x, groups) <==> Admits(groups[0], x) && Admits(groups[1], x) && Admits(groups[2], x) {
      }
    }
  }

  /**
   * What `__init__` leaves in the field map: unchanged without a request,
   * otherwise every declared field outside the final set is popped.
   */
  function Project<V>(fields: map<string, V>, context: Option<Request>, readable: set<string>, writable: set<string>)
    : (r: Result<map<string, V>, InitError>)
  {
    if context.None? then Success(fields)
    else
      match FinalFields(fields.Keys, context.value, readable, writable)
      case Failure(e) => Failure(e)
      case Success(final) => Success(fields - (fields.Keys - final))
  }

  /** Construction fails exactly when there is a request but no declared, accessible or requested field. */
  lemma ProjectFails<V>(fields: map<string, V>, context: Option<Request>, readable: set<string>, writable: set<string>)
    ensures Project(fields, context, readable, writable).Failure? <==>
      context.Some? && fields == map[] &&
      AccessibleFields(context.value, readable, writable) == {} && RequestedFields(context.value).None?
  {
    if context.Some? {
      FinalFieldsExact(fields.Keys, context.value, readable, writable);
      if fields.Keys == {} { assert fields == map[]; }
    }
  }

  /**
   * With a request, the kept fields are the declared fields that every
   * non-empty group among accessible and requested contains.
   */
  lemma ProjectKeys<V>(fields: map<string, V>, request: Request, readable: set<string>, writable: set<string>)
    requires Project(fields, Some(request), readable, writable).Success?
    ensures forall x :: x in Project(fields, Some(request), readable, writable).value <==>
      x in fields && Admits(Some(AccessibleFields(request, readable, writable)), x) &&
      Admits(RequestedFields(request), x)
  {
    FinalFieldsExact(fields.Keys, request, readable, writable);
  }

  /**
   * Projection only removes entries: the result is a sub-map of the declared fields,
   * so a requested name that was never declared is never added.
   */
  lemma ProjectOnlyRemoves<V>(fields: map<string, V>, context: Option<Request>, readable: set<string>, writable: set<string>)
    requires Project(fields, context, readable, writable).Success?
    ensures Project(fields, context, readable, writable).value.Keys <= fields.Keys
    ensures forall x :: x in Project(fields, context, readable, writable).value ==>
      Project(fields, context, readable, writable).value[x] == fields[x]
  {
  }

  /** Without a request in the context the field map is exactly what the base serializer built. */
  lemma ProjectWithoutRequest<V>(fields: map<string, V>, readable: set<string>, writable: set<string>)
    ensures Project(fields, None, readable, writable) == Success(fields)
  {
  }

  /** The method is compared case-insensitively: only the eight spellings of GET read. */
  lemma ReadIsCaseInsensitive(request: Request)
    ensures IsRead(request) <==>
      |request.httpMethod| == 3 && request.httpMethod[0] in "gG" &&
      request.httpMethod[1] in "eE" && request.httpMethod[2] in "tT"
  {
    LowerIsGet(request.httpMethod);
  }

  /** A GET without a non-empty `fields` parameter is restricted by the readable fields alone. */
  lemma ReadWithoutFieldsParam<V>(fields: map<string, V>, request: Request, readable: set<string>, writable: set<string>)
    requires IsRead(request)
    requires FieldsString(request).None? || FieldsString(request).value == ""
    requires Project(fields, Some(request), readable, writable).Success?
    ensures forall x :: x in Project(fields, Some(request), readable, writable).value <==>
      x in fields && (readable == {} || x in readable)
  {
    ProjectKeys(fields, request, readable, writable);
  }

  /**
   * For every method other than GET only the writable fields restrict: the
   * readable fields and the query parameters make no difference.
   */
  lemma WriteIgnoresQueryAndReadable<V>(fields: map<string, V>, request: Request, query: map<string, string>,
                                        readable: set<string>, readable': set<string>, writable: set<string>)
    requires !IsRead(request)
    ensures Project(fields, Some(request), readable, writable) ==
      Project(fields, Some(request.(queryParams := query)), readable', writable)
    ensures Project(fields, Some(request), readable, writable).Success? ==>
      forall x :: x in Project(fields, Some(request), readable, writable).value <==>
        x in fields && (writable == {} || x in writable)
  {
    assert RequestedFields(request).None?;
    assert RequestedFields(request.(queryParams := query)).None?;
    if Project(fields, Some(request), readable, writable).Success? {
      ProjectKeys(fields, request, readable, writable);
    }
  }

  /** For GET the writable fields make no difference. */
  lemma ReadIgnoresWritable<V>(fields: map<string, V>, request: Request, readable: set<string>,
                               writable: set<string>, writable': set<string>)
    requires IsRead(request)
    ensures Project(fields, Some(request), readable, writable) == Project(fields, Some(request), readable, writable')
  {
  }

  /** Projecting the result again with the same request and hooks changes nothing. */
  lemma ProjectIdempotent<V>(fields: map<string, V>, context: Option<Request>, readable: set<string>, writable: set<string>)
    requires Project(fields, context, readable, writable).Success?
    ensures Project(Project(fields, context, readable, writable).value, context, readable, writable) ==
      Project(fields, context, readable, writable)
  {
    if context.Some? {
      var once := Project(fields, context, readable, writable).value;
      ProjectKeys(fields, context.value, readable, writable);
      ProjectFails(once, context, readable, writable);
      ProjectKeys(once, context.value, readable, writable);
      var twice := Project(once, context, readable, writable).value;
      assert twice.Keys == once.Keys;
      ProjectOnlyRemoves(once, context, readable, writable);
      assert twice == once;
    }
  }

  /** `"id,name".split(",") == ["id", "name"]`. */
  lemma SplitIdName()
    ensures Split("id,name", FieldSeparator) == ["id", "name"]
  {
    var q := "id,name";
    assert q[0..1] == "i" && q[1..2] == "d" && q[2..3] == ",";
    assert MatchAt(q, FieldSeparator, 2) && !MatchAt(q, FieldSeparator, 0) && !MatchAt(q, FieldSeparator, 1);
    assert Find(q, FieldSeparator) == Some(2);
    var tail := q[3..];
    assert tail == "name";
    assert forall j: nat :: !MatchAt(tail, FieldSeparator, j) by {
      forall j: nat ensures !MatchAt(tail, FieldSeparator, j) {
        if j + 1 <= |tail| { assert tail[j] != ','; }
      }
    }
    assert Find(tail, FieldSeparator) == None;
    assert Split(tail, FieldSeparator) == [tail];
    assert q[..2] == "id";
  }

  /** The `fields` parameter `id,name` of a GET requests exactly `id` and `name`. */
  lemma RequestedIdName(request: Request)
    requires request == Request("GET", 7, map[FieldsParam := "id,name"])
    ensures RequestedFields(request) == Some({"id", "name"})
  {
    LowerIsGet(request.httpMethod);
    SplitIdName();
    assert FieldsString(request) == Some("id,name");
    var requested := RequestedFields(request);
    assert forall f :: f in requested.value <==> f == "id" || f == "name";
    assert requested.value == {"id", "name"};
  }

  /**
   * A GET whose `fields` parameter names `id` and `name` (as `id,name` does, by
   * RequestedIdName), on a serializer declaring `id`, `name` and `secret`, all
   * readable, keeps `id` and `name`.
   */
  lemma ExampleReadWithFieldsParam<V>(request: Request, id: V, name: V, secret: V)
    requires IsRead(request) && RequestedFields(request) == Some({"id", "name"})
    ensures Project(map["id" := id, "name" := name, "secret" := secret], Some(request), {"id", "name", "secret"}, {})
         == Success(map["id" := id, "name" := name])
  {
    var declared := map["id" := id, "name" := name, "secret" := secret];
    var readable := {"id", "name", "secret"};
    ProjectFails(declared, Some(request), readable, {});
    ProjectKeys(declared, request, readable, {});
    var r := Project(declared, Some(request), readable, {}).value;
    assert r.Keys == {"id", "name"};
    ProjectOnlyRemoves(declared, Some(request), readable, {});
    assert r["id"] == id && r["name"] == name;
    assert r == map["id" := id, "name" := name];
  }

  /**
   * A serializer with the mixin. `fields` is the field map the base serializer
   * built; `context` is the `"request"` entry of its context, None when the
   * context is empty or has none.
   */
  class SaneSerializer<V> {
    var fields: map<string, V>
    var context: Option<Request>

    /** The base serializer's `__init__`, which builds the field map and stores the context. */
    constructor (fields: map<string, V>, context: Option<Request>)
      ensures this.fields == fields && this.context == context
    {
      this.fields := fields;
      this.context := context;
    }

    /**
     * The rest of `__init__`: compute the final field set and pop every
     * declared field outside it. On failure the map is left untouched.
     */
    method RestrictFields(readable: set<string>, writable: set<string>) returns (outcome: Outcome<InitError>)
      modifies this`fields
      ensures Project(old(fields), context, readable, writable).Failure? ==>
        outcome == Fail(Project(old(fields), context, readable, writable).error) && fields == old(fields)
      ensures Project(old(fields), context, readable, writable).Success? ==>
        outcome == Pass && fields == Project(old(fields), context, readable, writable).value
    {
      if context.None? {
        return Pass;
      }
      var request := context.value;
      var requestMethod := Lower(request.httpMethod);
      var available := fields.Keys;

      var accessible: Option<set<string>>, requested: Option<set<string>> := None, None;
      if requestMethod == "get" {
        accessible := Some(readable);
        var fieldsStr := FieldsString(request);
        if fieldsStr.Some? && fieldsStr.value != "" {
          requested := Some(set f | f in Split(fieldsStr.value, FieldSeparator));
        }
      } else {
        accessible := Some(writable);
      }

      var fieldGroups := [Some(available), accessible, requested];
      assert fieldGroups == FieldGroups(available, request, readable, writable);
      var finalFields := Intersection(ValidGroups(fieldGroups));
      if finalFields.Failure? {
        return Fail(finalFields.error);
      }

      var toRemove := available - finalFields.value;
      while toRemove != {}
        invariant toRemove <= available - finalFields.value
        invariant fields.Keys == available - ((available - finalFields.value) - toRemove)
        invariant forall k :: k in fields ==> fields[k] == old(fields)[k]
        decreases toRemove
      {
        var field :| field in toRemove;
        assert field in fields;  // so `pop` never raises KeyError
        fields := fields - {field};
        toRemove := toRemove - {field};
      }
      assert fields == old(fields) - (available - finalFields.value);
      return Pass;
    }
  }
}
