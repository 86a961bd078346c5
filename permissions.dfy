/**
 * `PermissionField`: a read-only serializer field whose value, for an object and
 * the requesting user, is the list of permissions that user holds on it. A
 * permission is a method of the object named `can_<something>`; it is held when
 * calling it with the user and the request returns a truthy value.
 */
module Permissions {
  import opened Wrappers
  import opened Requests
  import opened PyStr

  /** The prefix that marks an authorizer method. */
  const PermissionPrefix: string := "can_"

  /**
   * `getattr(obj, name)(user, request)` for an attribute `name`, reduced to
   * whether the result is truthy.
   */
  type Authorizer = (string, UserId, Request) -> bool

  /**
   * The serialized object, as far as the field sees it: its attribute names in
   * `dir(obj)` order and its authorizer methods.
   */
  datatype Obj = Obj(attributes: seq<string>, authorize: Authorizer)

  /** Why `to_representation` fails. */
  datatype FieldError =
    | MissingRequest  // `self.context["request"]` raises KeyError
    | RequestIsNone   // `request.user` on a `None` request raises AttributeError

  /** `re.match("can_", name)`: the name starts with the prefix. */
  predicate IsPermissionMethod(name: string)
  {
    StartsWith(name, PermissionPrefix)
  }

  /** `name.replace("can_", "")`: every occurrence of the prefix is removed, not only the leading one. */
  function PermissionName(name: string): (r: string)
    ensures |r| <= |name|
  {
    RemoveShortens(name, PermissionPrefix);
    Replace(name, PermissionPrefix, "")
  }

  /**
   * The leading `can_` is removed; when the rest holds no further `can_`, the
   * permission name is exactly the rest.
   */
  lemma PermissionNameOfPrefixed(name: string)
    requires IsPermissionMethod(name)
    ensures |PermissionName(name)| <= |name| - |PermissionPrefix|
    ensures !Occurs(name[|PermissionPrefix|..], PermissionPrefix) ==>
      PermissionName(name) == name[|PermissionPrefix|..]
  {
    RemoveShortens(name, PermissionPrefix);
    assert name[..|PermissionPrefix|] == PermissionPrefix;
    if !Occurs(name[|PermissionPrefix|..], PermissionPrefix) {
      ReplaceWithoutMatch(name[|PermissionPrefix|..], PermissionPrefix, "");
    }
  }

  /**
   * Every occurrence is removed, so an inner `can_` goes too: the method
   * `can_scan_docs` grants the permission `sdocs`.
   */
  lemma PermissionNameRemovesInnerPrefix()
    ensures PermissionName("can_scan_docs") == "sdocs"
  {
    var name := "can_scan_docs";
    var rest := name[4..];
    assert name[..4] == PermissionPrefix && rest == "scan_docs";
    assert rest[0] == 's' && PermissionPrefix[0] == 'c';
    assert rest[..4] != PermissionPrefix;
    var tail := rest[1..];
    assert tail[..4] == PermissionPrefix && tail[4..] == "docs";
    var docs := tail[4..];
    assert !Occurs(docs, PermissionPrefix);
    ReplaceWithoutMatch(docs, PermissionPrefix, "");
    assert PermissionName(name) == Replace(rest, PermissionPrefix, "");
    assert Replace(rest, PermissionPrefix, "") == "s" + Replace(tail, PermissionPrefix, "");
    assert Replace(tail, PermissionPrefix, "") == docs;
  }

  /** The attribute `name` is an authorizer that grants the request's user. */
  predicate Grants(obj: Obj, request: Request, name: string)
  {
    IsPermissionMethod(name) && obj.authorize(name, request.user, request)
  }

  /** `filter(lambda method: re.match("can_", method), names)`. */
  function PermissionMethods(names: seq<string>): (r: seq<string>)
    ensures forall k :: 0 <= k < |r| ==> IsPermissionMethod(r[k]) && r[k] in names
    ensures forall j :: 0 <= j < |names| && IsPermissionMethod(names[j]) ==> names[j] in r
    ensures |r| <= |names|
  {
    if names == [] then []
    else
      var init := PermissionMethods(names[..|names| - 1]);
      if IsPermissionMethod(names[|names| - 1]) then init + [names[|names| - 1]] else init
  }

  /** The positions in `names` of the `can_` names, ascending. */
  function PermissionPositions(names: seq<string>): (idx: seq<nat>)
    ensures forall k :: 0 <= k < |idx| ==> idx[k] < |names| && IsPermissionMethod(names[idx[k]])
    ensures forall k, l :: 0 <= k < l < |idx| ==> idx[k] < idx[l]
    ensures forall j :: 0 <= j < |names| && IsPermissionMethod(names[j]) ==> j in idx
  {
    if names == [] then []
    else
      var init := PermissionPositions(names[..|names| - 1]);
      if IsPermissionMethod(names[|names| - 1]) then init + [|names| - 1] else init
  }

  /**
   * The filter keeps exactly the `can_` names, in `dir()` order: its result is
   * the names at the ascending positions of the `can_` names.
   */
  lemma {:induction false} PermissionMethodsAtPositions(names: seq<string>)
    ensures |PermissionMethods(names)| == |PermissionPositions(names)|
    ensures forall k :: 0 <= k < |PermissionMethods(names)| ==>
      PermissionMethods(names)[k] == names[PermissionPositions(names)[k]]
  {
    if names != [] {
      var init := names[..|names| - 1];
      PermissionMethodsAtPositions(init);
      var idx := PermissionPositions(init);
      forall k | 0 <= k < |idx| ensures names[idx[k]] == init[idx[k]] { }
    }
  }

  /** The permission list the field produces for the attribute names `names`, in their order. */
  function Granted(obj: Obj, request: Request, names: seq<string>): (r: seq<string>)
    ensures |r| <= |names|
  {
    if names == [] then []
    else
      var init := Granted(obj, request, names[..|names| - 1]);
      var last := names[|names| - 1];
      if Grants(obj, request, last) then init + [PermissionName(last)] else init
  }

  /**
   * The positions in `names` of the granting authorizers, ascending: the
   * permission list is exactly the names at these positions, stripped.
   */
  function GrantingPositions(obj: Obj, request: Request, names: seq<string>): (idx: seq<nat>)
    ensures forall k :: 0 <= k < |idx| ==> idx[k] < |names| && Grants(obj, request, names[idx[k]])
    ensures forall k, l :: 0 <= k < l < |idx| ==> idx[k] < idx[l]
    ensures forall j :: 0 <= j < |names| && Grants(obj, request, names[j]) ==> j in idx
  {
    if names == [] then []
    else
      var init := GrantingPositions(obj, request, names[..|names| - 1]);
      if Grants(obj, request, names[|names| - 1]) then init + [|names| - 1] else init
  }

  /** The permission list of a concatenation is the concatenation of the permission lists. */
  lemma {:induction false} GrantedAppend(obj: Obj, request: Request, a: seq<string>, b: seq<string>)
    ensures Granted(obj, request, a + b) == Granted(obj, request, a) + Granted(obj, request, b)
    decreases |b|
  {
    if b == [] {
      assert a + b == a;
    } else {
      var b' := b[..|b| - 1];
      assert (a + b)[..|a + b| - 1] == a + b';
      GrantedAppend(obj, request, a, b');
    }
  }

  /**
   * The permission list holds one entry per granting authorizer, in the order
   * of `names`, and each entry is that name with every `can_` removed.
   */
  lemma {:induction false} GrantedAtPositions(obj: Obj, request: Request, names: seq<string>)
    ensures |Granted(obj, request, names)| == |GrantingPositions(obj, request, names)|
    ensures forall k :: 0 <= k < |Granted(obj, request, names)| ==>
      Granted(obj, request, names)[k] == PermissionName(names[GrantingPositions(obj, request, names)[k]])
  {
    if names != [] {
      var init := names[..|names| - 1];
      GrantedAtPositions(obj, request, init);
      var idx := GrantingPositions(obj, request, init);
      forall k | 0 <= k < |idx| ensures names[idx[k]] == init[idx[k]] { }
    }
  }

  /** A permission is listed exactly when some granting authorizer's stripped name is it. */
  lemma GrantedMembership(obj: Obj, request: Request, names: seq<string>, p: string)
    ensures p in Granted(obj, request, names) <==>
      exists j :: 0 <= j < |names| && Grants(obj, request, names[j]) && PermissionName(names[j]) == p
  {
    GrantedAtPositions(obj, request, names);
    var g := Granted(obj, request, names);
    var idx := GrantingPositions(obj, request, names);
    if p in g {
      var k :| 0 <= k < |g| && g[k] == p;
      assert Grants(obj, request, names[idx[k]]);
    }
    if j :| 0 <= j < |names| && Grants(obj, request, names[j]) && PermissionName(names[j]) == p {
      var k :| 0 <= k < |idx| && idx[k] == j;
      assert g[k] == p;
    }
  }

  /** Names without the `can_` prefix never contribute: filtering them out first changes nothing. */
  lemma {:induction false} GrantedIgnoresOtherNames(obj: Obj, request: Request, names: seq<string>)
    ensures Granted(obj, request, PermissionMethods(names)) == Granted(obj, request, names)
  {
    if names != [] {
      var init := names[..|names| - 1];
      var last := names[|names| - 1];
      GrantedIgnoresOtherNames(obj, request, init);
      if IsPermissionMethod(last) {
        GrantedAppend(obj, request, PermissionMethods(init), [last]);
        assert [last][..0] == [];
      }
    }
  }

  /** There are at most as many permissions as `can_` attributes. */
  lemma {:induction false} GrantedBound(obj: Obj, request: Request, names: seq<string>)
    ensures |Granted(obj, request, names)| <= |PermissionMethods(names)|
  {
    if names != [] {
      GrantedBound(obj, request, names[..|names| - 1]);
    }
  }

  /**
   * A serializer field that is always read-only. `context` is the `"request"`
   * entry of the serializer context the field is bound to: None when there is
   * no such entry, Some(None) when the entry is Python's `None`.
   */
  class PermissionField {
    var readOnly: bool
    var context: Option<Option<Request>>

    /** `__init__`: whatever `read_only` the caller asks for, the field is read-only. */
    constructor (readOnlyKwarg: Option<bool>, context: Option<Option<Request>>)
      ensures readOnly
      ensures this.context == context
    {
      readOnly := true;
      this.context := context;
    }

    /** `get_attribute`: the field's value is derived from the whole instance. */
    function GetAttribute(instance: Obj): (r: Obj)
      ensures r == instance
    {
      instance
    }

    /**
     * `to_representation`: look up the request, then walk the attribute names
     * in order and collect the stripped name of every granting authorizer.
     * A `None` request fails only once a `can_` name makes it read `request.user`.
     */
    method ToRepresentation(obj: Obj) returns (r: Result<seq<string>, FieldError>)
      ensures context.None? <==> r == Failure(MissingRequest)
      ensures context == Some(None) ==>
        r == if PermissionMethods(obj.attributes) == [] then Success([]) else Failure(RequestIsNone)
      ensures context.Some? && context.value.Some? ==>
        r == Success(Granted(obj, context.value.value, obj.attributes))
    {
      if context.None? {
        return Failure(MissingRequest);
      }
      var request := context.value;
      var names := obj.attributes;
      var permissions: seq<string> := [];
      for i := 0 to |names|
        invariant request.Some? ==> permissions == Granted(obj, request.value, names[..i])
        invariant request.None? ==> permissions == [] && PermissionMethods(names[..i]) == []
      {
        assert names[..i + 1][..i] == names[..i];
        if IsPermissionMethod(names[i]) {
          var permissionName := PermissionName(names[i]);
          if request.None? {
            assert names[i] in PermissionMethods(names);
            return Failure(RequestIsNone);
          }
          if obj.authorize(names[i], request.value.user, request.value) {
            permissions := permissions + [permissionName];
          }
        }
      }
      assert names[..|names|] == names;
      return Success(permissions);
    }
  }
}
