# sane_api serializers in Dafny

This project models the two rules that `sane_api/serializers.py` adds on top of
Django REST Framework serializers.

1. **Field projection** (`SaneSerializerMixin.__init__`). The base serializer
   builds its field map first. If the serializer context holds no request, the
   map stays as it is. Otherwise the rule builds three groups:
   - the declared field names;
   - the accessible fields: the readable fields when the lower-cased HTTP
     method is `get`, the writable fields for every other method;
   - for `get` only, the names in a non-empty `fields` query parameter,
     split on `,`.

   Groups that are absent or empty are dropped. The final field set is the
   intersection of the groups that remain. Every declared field outside it is
   popped from the map, in place. When no group remains,
   `set.intersection()` is called with no argument and construction fails.
2. **Permission listing** (`PermissionField`). The field is always read-only,
   and its attribute is the whole instance. Its representation walks the
   object's attribute names in `dir()` order. It keeps the names that start
   with `can_`, and calls each as an authorizer with the request's user and
   the request. For each one that returns a truthy value, it appends the name
   with every `can_` removed.

Layout:
- `wrappers.dfy`: Option, Result and Outcome.
- `requests.dfy`: the request, reduced to its method, user and query parameters.
- `pystr.dfy`: the Python string operations used. These are `startswith`,
  `find`, `split`, `join`, `replace` and `lower`. The lemmas prove
  `sep.join(s.split(sep)) == s` and `s.replace(p, r) == r.join(s.split(p))`.
- `permissions.dfy`: `PermissionField`. Its loop is proved against the
  specification function `Granted`.
- `projection.dfy`: `SaneSerializerMixin`. The specification function is
  `Project`. The class `SaneSerializer` holds the field map, and its method
  `RestrictFields` pops fields in a loop that is proved to produce `Project`.

Inputs that stand for framework objects:
- The serializer's context is an `Option<Request>`. `None` means that the
  context is empty, has no `"request"` entry, or holds `None` there.
- The permission field's context is an `Option<Option<Request>>`. `None`
  means that there is no `"request"` entry, and `Some(None)` means that the
  entry is `None`.
- `get_readable_fields()` and `get_writable_fields()` are given sets of field
  names.
- The object's `dir()` is a sequence of names. Its `can_*` methods are one
  function from (name, user, request) to a truth value.

Behaviours of the code worth knowing:
- Only `GET`, in any case, is a read. HEAD and OPTIONS are restricted by the
  writable fields.
- An empty readable or writable set imposes no restriction. If all three
  groups are falsy, construction fails.
- `str.replace` removes every `can_`, not only the leading one. So the method
  `can_scan_docs` reports the permission `sdocs`
  (`Permissions.PermissionNameRemovesInnerPrefix`).
- A `"request"` entry of `None` makes the permission field fail only when
  some attribute starts with `can_`, because only then is `request.user` read.

## Model

| member | source | states |
|---|---|---|
| `PyStr.Split` | sane_api/serializers.py:41 | `fields_str.split(",")` always yields at least one piece |
| `PyStr.SplitPiecesFree` | sane_api/serializers.py:41 | no piece of a split contains the separator |
| `PyStr.JoinSplit` | sane_api/serializers.py:41 | joining the pieces with the separator gives back the original string |
| `PyStr.Replace` | sane_api/serializers.py:16 | `str.replace`; its properties are stated by `ReplaceIsJoinOfSplit`, `ReplaceWithoutMatch` and `RemoveShortens` |
| `PyStr.ReplaceIsJoinOfSplit` | sane_api/serializers.py:16 | the left-to-right, non-overlapping replacement equals joining the split pieces with the replacement |
| `PyStr.ReplaceWithoutMatch` | sane_api/serializers.py:16 | a string without the pattern is left unchanged by replace |
| `PyStr.RemoveShortens` | sane_api/serializers.py:16 | removing a pattern never lengthens a string, and removes at least the pattern's length when the string starts with it |
| `PyStr.LowerFixesLowercase` | sane_api/serializers.py:33 | lower-casing is idempotent, and a string without a capital letter is left unchanged |
| `PyStr.LowerIsGet` | sane_api/serializers.py:33 | `m.lower() == "get"` holds exactly for the eight case variants of GET |
| `Permissions.IsPermissionMethod` | sane_api/serializers.py:13 | `re.match("can_", name)` as a prefix test; used by `PermissionMethods` and `Grants` |
| `Permissions.PermissionMethods` | sane_api/serializers.py:13 | every kept name starts with `can_` and comes from the input, every `can_` name of the input is kept, and there are no more of them than names |
| `Permissions.PermissionPositions` | sane_api/serializers.py:13 | the positions of the `can_` names are ascending and in range, each is a `can_` name, and every `can_` position is listed |
| `Permissions.PermissionMethodsAtPositions` | sane_api/serializers.py:13 | the filter's result is exactly the names at the `can_` positions, in `dir()` order |
| `Permissions.PermissionName` | sane_api/serializers.py:16 | `name.replace("can_", "")` is never longer than the name; see `PermissionNameOfPrefixed` and `PermissionNameRemovesInnerPrefix` |
| `Permissions.PermissionNameOfPrefixed` | sane_api/serializers.py:16 | for a `can_` name the permission name is at least 4 characters shorter, and it is exactly the rest when the rest holds no further `can_` |
| `Permissions.PermissionNameRemovesInnerPrefix` | sane_api/serializers.py:16 | `"can_scan_docs".replace("can_", "")` is `"sdocs"`: inner occurrences are removed too |
| `Permissions.Granted` | sane_api/serializers.py:14-19 | the permission list, never longer than the names; stated by `GrantedAtPositions`, `GrantedMembership`, `GrantedAppend`, `GrantedIgnoresOtherNames` and `GrantedBound` |
| `Permissions.GrantingPositions` | sane_api/serializers.py:13-19 | the positions of the granting `can_` names are ascending and in range, each one grants, and every granting position is listed |
| `Permissions.GrantedAtPositions` | sane_api/serializers.py:13-19 | the permission list has one entry per granting name, in `dir()` order, and each entry is that name with `can_` removed |
| `Permissions.GrantedMembership` | sane_api/serializers.py:13-19 | a permission is listed if and only if some granting `can_` name strips to it |
| `Permissions.GrantedAppend` | sane_api/serializers.py:14-19 | the list for a concatenation of names is the concatenation of the lists |
| `Permissions.GrantedIgnoresOtherNames` | sane_api/serializers.py:13 | names without the `can_` prefix never contribute |
| `Permissions.GrantedBound` | sane_api/serializers.py:13-19 | there are at most as many permissions as `can_` names |
| `Permissions.PermissionField.constructor` | sane_api/serializers.py:7-9 | the field is read-only whatever `read_only` the caller passed |
| `Permissions.PermissionField.GetAttribute` | sane_api/serializers.py:22-23 | the field's attribute is the whole instance, unchanged |
| `Permissions.PermissionField.ToRepresentation` | sane_api/serializers.py:11-20 | without a `"request"` entry it fails with KeyError; with a `None` request it returns `[]` when no attribute starts with `can_` and fails with AttributeError otherwise; with a request it returns the permission list `Granted` for the object's names |
| `FieldProjection.IsRead` | sane_api/serializers.py:33-37 | the lower-cased method is `get`; stated by `ReadIsCaseInsensitive` |
| `FieldProjection.FieldsString` | sane_api/serializers.py:39 | `query_params.get("fields")`; used by `RequestedFields` |
| `FieldProjection.AccessibleFields` | sane_api/serializers.py:36-43 | readable fields for GET, writable otherwise; stated by `ReadWithoutFieldsParam`, `ReadIgnoresWritable` and `WriteIgnoresQueryAndReadable` |
| `FieldProjection.RequestedFields` | sane_api/serializers.py:39-41 | a requested group exists exactly for a GET with a non-empty `fields` value; it is non-empty and holds exactly the comma-separated names |
| `FieldProjection.FieldGroups` | sane_api/serializers.py:45 | the declared, accessible and requested groups, in that order; used by `FinalFieldsExact` |
| `FieldProjection.ValidGroups` | sane_api/serializers.py:46 | the kept groups are non-empty, and none is kept exactly when every group is falsy |
| `FieldProjection.ValidGroupsAdmit` | sane_api/serializers.py:45-46 | a name is in every kept group if and only if every group is falsy or holds it |
| `FieldProjection.Intersection` | sane_api/serializers.py:47 | fails if and only if there is no group; otherwise it holds exactly the names in every group |
| `FieldProjection.FinalFields` | sane_api/serializers.py:45-47 | `final_fields`; stated by `FinalFieldsExact` |
| `FieldProjection.FinalFieldsExact` | sane_api/serializers.py:45-47 | the final set fails if and only if the declared, accessible and requested groups are all falsy; otherwise a name is in it exactly when every non-empty group holds it |
| `FieldProjection.Project` | sane_api/serializers.py:29-50 | the field map `__init__` leaves; stated by `ProjectWithoutRequest`, `ProjectFails`, `ProjectKeys`, `ProjectOnlyRemoves` and `ProjectIdempotent` |
| `FieldProjection.ProjectWithoutRequest` | sane_api/serializers.py:29-30 | without a request the field map is exactly what the base serializer built |
| `FieldProjection.ProjectFails` | sane_api/serializers.py:45-47 | construction fails if and only if there is a request, no declared field, an empty accessible set and no requested fields |
| `FieldProjection.ProjectKeys` | sane_api/serializers.py:45-50 | the kept fields are the declared fields held by every non-empty group among accessible and requested |
| `FieldProjection.ProjectOnlyRemoves` | sane_api/serializers.py:49-50 | the result is a sub-map of the declared fields: no key is added, and every kept key keeps its value |
| `FieldProjection.ProjectIdempotent` | sane_api/serializers.py:45-50 | projecting the result again with the same request and hooks changes nothing |
| `FieldProjection.ReadIsCaseInsensitive` | sane_api/serializers.py:33-37 | a request is a read exactly when its method is GET in any mix of cases |
| `FieldProjection.ReadWithoutFieldsParam` | sane_api/serializers.py:37-41 | a GET with an absent or empty `fields` value keeps the declared fields that are readable, or all of them if none is readable |
| `FieldProjection.ReadIgnoresWritable` | sane_api/serializers.py:37-41 | for GET the writable fields make no difference |
| `FieldProjection.WriteIgnoresQueryAndReadable` | sane_api/serializers.py:42-43 | for any other method the query parameters and readable fields make no difference, and the kept fields are the writable declared ones, or all of them if none is writable |
| `FieldProjection.SplitIdName` | sane_api/serializers.py:41 | `"id,name".split(",")` is `["id", "name"]` |
| `FieldProjection.RequestedIdName` | sane_api/serializers.py:39-41 | a GET with `fields=id,name` requests exactly `id` and `name` |
| `FieldProjection.ExampleReadWithFieldsParam` | sane_api/serializers.py:36-50 | a GET requesting `id` and `name` of a serializer declaring `id`, `name` and `secret`, all readable, keeps `id` and `name` with their values |
| `FieldProjection.SaneSerializer.constructor` | sane_api/serializers.py:26-27 | the base serializer's field map and context are stored as given |
| `FieldProjection.SaneSerializer.RestrictFields` | sane_api/serializers.py:29-50 | the field map afterwards is `Project` of the map before; on failure it is left unchanged and the error is reported |

## Left out

- The framework's base classes (`Serializer`, `ModelSerializer`, `Field`) and how they build `self.fields` and bind the context: this is foreign code. The initial field map and the context are inputs.
- `get_readable_fields` / `get_writable_fields`: these are defined by the framework or by subclasses, so they are given sets of field names.
- `SaneSerializer` and `SaneModelSerializer` (sane_api/serializers.py:53-57): they only compose classes and declare a `permissions` field.
- Python reflection: `dir(obj)` is a given name sequence, and its sorted order is not modelled. `getattr` and the `can_*` method bodies are one total function to a truth value. A `can_` attribute that is not callable, or an authorizer that raises, is not modelled.
- `re.match("can_", name)`: a pattern without metacharacters, so it is modelled as a prefix test.
- Context shapes of the serializer: an empty context, a context without `"request"`, and a `"request"` entry of `None` are all one `None`, since the code treats them alike. The permission field tells a missing entry (`None`) from a `None` entry (`Some(None)`).
- `request.query_params` is a map with one value per key. A `QueryDict`'s multiple values per key are not modelled.
- `PyStr.Lower`: lower-cases ASCII letters only. Python's full Unicode lower-casing is not modelled. No non-ASCII character lower-cases to a letter of `get`.
- `PyStr.Split`, `PyStr.Replace`: require a non-empty pattern. Every call site uses `,` or `can_`, and Python's behaviour for an empty pattern is not modelled.
- `PermissionField.__init__`'s other keyword arguments are forwarded to the framework and are not modelled.
