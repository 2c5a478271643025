# archlyacl in Dafny

A model of the access-control engine of archlyacl, with proofs about it.

The engine keeps three collaborators:

- **The permission matrix** (`Permission`). It maps a (role, resource) tuple to the actions set on it. Each action is allowed or denied. A missing tuple or action means "unspecified", so every query answers allowed, denied or null.
- **Two hierarchy registries** (`Registry`), one for roles and one for resources. Each maps a child id to its parent id, with `""` meaning top level, and also stores the original values.
- **The access-control list** (`Acl`). It answers whether a role may perform an action on a resource. It walks the role's path to the root in an outer loop and the resource's path in an inner loop, and the first tuple that answers decides.

Files and modules:

| file | module | what it holds |
|---|---|---|
| `common.dfy` | `Common` | `Option`/`Result`/`Outcome`, the error kinds, the JavaScript values callers pass (`Input`), and `getValue` |
| `seqs.dfy` | `Seqs` | sequence helpers for insertion-ordered key lists |
| `actions.dfy` | `Actions` | the open set of actions: `ALL`, the four named ones, and any other string |
| `tuple_keys.dfy` | `TupleKeys` | the string key `role::resource`, `separateKey`, and the prefix/suffix tests of the bulk removals |
| `matrix.dfy` | `Matrices` | the matrix as a value: lookups, the aggregate rule, the four branches of `remove`, and the bulk removals |
| `permission.dfy` | `Permissions` | `class Permission`: the matrix held in place, with its key order |
| `forest.dfy` | `Forests` | child-to-parent maps: the ghost rank that makes every walk to the root finite, paths, subtrees, adding and reparenting |
| `registry.dfy` | `Registries` | `class Registry` |
| `evaluation.dfy` | `Evaluation` | the `isAllowed`/`isDenied` decision as a function over the two paths |
| `acl.dfy` | `Acls` | `class Acl` |

Modelling choices:

- The mutating operations are methods on classes whose fields the source updates in place.
  - Each method's `ensures` states the new state through a function on values (`Set`, `Removed`, `DropRole`, `Added`, `Reparent`, `Subtree`, `Decide`).
  - Lemmas about those functions state what the source promises.
- A tuple key is modelled as a pair. `TupleKeys` relates the pair to the string form:
  - `separateKey` inverts `makeKey` when the ids are safe;
  - the prefix and suffix tests select exactly one role's or one resource's tuples when the ids are safe;
  - both tests over-match when they are not (see Findings);
  - `separateKeys` reads the string form of each stored tuple, so a stored id holding "::" gives the InvalidError there.
- Thrown errors become `Err`/`Fail` results that carry an `Error` value. An operation that fails leaves the state unchanged, as the source does when it throws before writing anything.
- A registry always stays a forest. The ghost `rank` map decreases from every child to its parent. That is why `traverseRoot`'s loop and `remDescendants`' recursion terminate, and every method keeps this invariant.
- The wildcard id `ASTERISK` is the literal `"*"`.
  - src/acl.js and src/permission.js read it as `common.ASTERISK`.
  - The src/common.js in this repository exports only `getValue`, so as written that name (and `TRACE_LEVEL_*`) would be `undefined`.
  - src/registry.js:179 pushes the literal `'*'`. The model follows that value.

## Model

| member | source | states |
|---|---|---|
| Common.GetValue | src/common.js:16-22 | fails with NullError exactly for null, undefined and ""; a string resolves to itself; an object resolves to its getId() when that is a string, otherwise to its toString() |
| Common.KeyOrStar | src/permission.js:367-369 | a query key is never empty: "*" for a falsy value, the string itself for a non-empty string |
| Common.GetIdWins | src/common.js:19-21 | a string getId() decides the key, whatever the id field and toString() say |
| Common.NonStringGetIdFallsBack | src/common.js:19-22 | a missing or non-string getId() is ignored and toString() decides |
| Common.IdFieldIgnored | src/common.js:19-22 | the `id` field never changes the key; an object with id "1" and the default toString() resolves to "[object Object]" |
| Actions.ParseName | src/permission.js:11-17 | each action has exactly one spelling: parsing its name gives it back |
| Actions.NameParse | src/permission.js:81-83 | parsing then naming gives any action string back, except that the missing (empty) action becomes "ALL" |
| TupleKeys.SeparateKey | src/permission.js:777-786 | InvalidError exactly when the key does not split on "::" into two parts; otherwise the two parts joined by "::" are the key |
| TupleKeys.SeparateMakeKey | src/permission.js:777-786 | separateKey inverts makeKey on ids with no "::" inside and no ':' at either end, empty ids coming back as "*" |
| TupleKeys.MakeKeyInjective | src/permission.js:748-753 | on such ids, two equal keys come from the same tuple |
| TupleKeys.RoleKeyMatchesExactly | src/permission.js:717-726 | on such ids, removeByRole's prefix test selects a key exactly when its role is the given one |
| TupleKeys.ResourceKeyMatchesExactly | src/permission.js:697-706 | on such ids, removeByResource's suffix test selects a key exactly when its resource is the given one |
| TupleKeys.RolePrefixOvermatches | src/permission.js:720-723 | as written, removeByRole("a") selects the tuple ("a:", "x"), and ("a:", "b") and ("a", ":b") share one key |
| TupleKeys.ResourceSuffixOvermatches | src/permission.js:700-703 | as written, removeByResource("b") selects the tuple ("x", ":b"), whose key "x:::b" ends with "::b" |
| TupleKeys.SplitAfterSafe | src/permission.js:777-778 | splitting a safe id joined to any rest by "::" gives that id followed by the split of the rest |
| TupleKeys.SeparateJoin | src/permission.js:777-786 | separateKey gives back two safe ids joined by "::" |
| TupleKeys.SeparatorInIdInvalid | src/permission.js:777-786 | the key makeKey builds for the role "a::b" and the resource "c" is "a::b::c", and separateKey refuses it with InvalidError |
| Matrices.TupleOf | src/permission.js:748-753 | the pair gives the same string key that makeKey builds, and neither half is empty |
| Matrices.DeniedIsNegatedAllowed | src/permission.js:540-608 | isDenied is isAllowed negated, and null exactly when isAllowed is null |
| Matrices.AllowedAfterSet | src/permission.js:75-110 | after allow/deny the tuple answers the set value for that action; setting ALL decides every action without its own entry; other tuples and other actions answer as before |
| Matrices.SpecificOverridesAll | src/permission.js:385-416 | an action's own entry overrides ALL in both orders of setting; the other unset actions still follow ALL |
| Matrices.OtherActionFallsBackToAll | src/permission.js:386-416 | an unknown action ('play') without its own entry is answered from ALL |
| Matrices.NamedKeys | src/permission.js:309-337 | with only named actions, four non-ALL entries means all four named actions are set |
| Matrices.AllowedAllMeansEveryAction | src/permission.js:294-337 | with only named actions, isAllowedAll is true iff no entry is false and every named action is allowed, and false iff some entry is false |
| Matrices.OtherActionCountsTowardFour | src/permission.js:309-311 | the count of four includes unknown actions: CREATE, READ, UPDATE and 'play' make isAllowedAll true while DELETE is unspecified |
| Matrices.DeniedAllIsAllowedAllOfNegation | src/permission.js:444-523 | isDeniedAll is isAllowedAll of the tuple with every entry negated |
| Matrices.AggregateOfEmpty | src/permission.js:294-347 | a tuple with no entries gives null for both aggregates |
| Matrices.AllowedAllAfterSet | src/permission.js:295-325 | after allowing ALL on a tuple with no false entry, isAllowedAll is true; after denying any action it is false |
| Matrices.RemovedFails | src/permission.js:643-681 | remove fails exactly when the tuple is absent (the error names the key), or when the action is not ALL, has no entry and ALL has none either |
| Matrices.RemovedIsLocal | src/permission.js:632-689 | remove changes no other tuple |
| Matrices.RemoveAllDeletesTuple | src/permission.js:651-674 | removing ALL deletes the whole tuple, concrete entries too, whether or not ALL was set |
| Matrices.RemoveSetAction | src/permission.js:651-688 | removing a set action drops just that entry; the action then answers from ALL or null, and the tuple goes when no entry is left |
| Matrices.RemoveExpandsAll | src/permission.js:661-670 | removing an unset action while ALL is set drops ALL and writes ALL's value into every other named action, overwriting them; the removed action becomes unspecified |
| Matrices.RemoveTwiceFails | src/permission.js:675-681 | without ALL, removing the same action a second time fails |
| Matrices.DropRole | src/permission.js:717-729 | removeByRole leaves exactly the tuples of other roles |
| Matrices.DropResource | src/permission.js:697-709 | removeByResource leaves exactly the tuples of other resources |
| Matrices.DropRoleExact | src/permission.js:717-729 | after removeByRole no tuple of the role remains, every other tuple is unchanged, and a second call changes nothing |
| Matrices.DropResourceExact | src/permission.js:697-709 | after removeByResource no tuple of the resource remains, every other tuple is unchanged, and a second call changes nothing |
| Matrices.InitialDeniesEverything | src/permission.js:28-35 | a new matrix answers isAllowed false and isDenied true for every action on "*::*", is denied-all there, and no other tuple answers |
| Matrices.DefaultReplaced | src/permission.js:613-622 | makeDefaultAllow/makeDefaultDeny replace "*::*" so that it answers the new value for every action and for both aggregates |
| Permissions.QueryTuple | src/permission.js:364-369 | a query's tuple has no empty half; a falsy role or resource becomes "*"; otherwise it is makeKey's tuple of the resolved ids |
| Permissions.Scan | src/permission.js:294-347 | the isAllowedAll/isDeniedAll loop returns the aggregate rule: false on an entry equal to the blocker, else true for ALL or four non-ALL entries, else null |
| Permissions.ExpandAll | src/permission.js:663-670 | the expansion loop yields the entries without ALL plus ALL's value for every named action but the removed one |
| Permissions.FirstSeen | src/permission.js:210-223 | the key loop keeps each id other than "*" once, in first-seen order, and nothing else |
| Permissions.Permission.constructor | src/permission.js:28-33 | a new matrix holds exactly "*::*" denied on ALL |
| Permissions.Permission.Size | src/permission.js:736-738 | size is the number of tuples, which is the length of the key order |
| Permissions.Permission.Allow | src/permission.js:75-110 | NullError for a falsy role or resource with nothing changed; otherwise the action (ALL when missing) is set to true on the tuple, which is appended to the key order if new |
| Permissions.Permission.Deny | src/permission.js:128-163 | the same as allow, setting false |
| Permissions.Permission.IsAllowed | src/permission.js:364-432 | answers only for a present tuple; its value is `Allowed`, the entry-else-ALL lookup |
| Permissions.Permission.IsDenied | src/permission.js:540-608 | the isAllowed answer negated, null staying null |
| Permissions.Permission.IsAllowedAll | src/permission.js:270-348 | null for an absent tuple, otherwise the aggregate rule with false as the blocker |
| Permissions.Permission.IsDeniedAll | src/permission.js:444-523 | null for an absent tuple, otherwise the aggregate rule with true as the blocker |
| Permissions.Permission.Remove | src/permission.js:632-689 | NullError for a falsy role or resource; otherwise the outcome and new matrix of `Removed`; the key order loses exactly the deleted tuples; nothing changes on failure |
| Permissions.Permission.RemoveKeys | src/permission.js:815-825 | the listed tuples are deleted, the count is the number of keys listed, and the order loses exactly those keys |
| Permissions.Permission.RemoveByRole | src/permission.js:717-729 | the role's tuples are deleted, the order loses exactly them, and the count is how many there were |
| Permissions.Permission.RemoveByResource | src/permission.js:697-709 | the resource's tuples are deleted, the order loses exactly them, and the count is how many there were |
| Permissions.Permission.MakeDefaultAllow | src/permission.js:613-615 | "*::*" becomes exactly {ALL: true}; nothing else changes |
| Permissions.Permission.MakeDefaultDeny | src/permission.js:620-622 | "*::*" becomes exactly {ALL: false}; nothing else changes |
| Permissions.Permission.Clear | src/permission.js:115-117 | no tuple is left, not even "*::*" |
| Permissions.Permission.ImportMap | src/permission.js:244-258 | the matrix and its key order become the snapshot |
| Permissions.SafeKeysSeparate | src/permission.js:793-807 | when every stored id is safe, separateKeys does not throw and its two columns are exactly the roles and the resources of the tuples, in key order |
| Permissions.SeparatorInIdUnseparable | src/permission.js:793-807 | the tuple allow("a::b", "c") stores makes separateKeys throw |
| Permissions.Permission.SeparateKeys | src/permission.js:793-807 | InvalidError iff some stored key does not split into two parts; otherwise the first parts and the second parts of the keys, in key order |
| Permissions.Permission.GetRoleKeys | src/permission.js:210-223 | InvalidError iff separateKeys throws; otherwise the distinct role parts other than "*", in first-seen key order, and a part is listed iff some key has it |
| Permissions.Permission.GetResourceKeys | src/permission.js:191-204 | InvalidError iff separateKeys throws; otherwise the distinct resource parts other than "*", in first-seen key order, and a part is listed iff some key has it |
| Forests.Chain | src/registry.js:173-178 | traverseRoot's walk starts at the key (if registered), visits only registered ids, and stops at an entry whose parent is not registered |
| Forests.ChainDescends | src/registry.js:175-178 | ranks strictly decrease along the walk, so it has no repeated id |
| Forests.ChainLinks | src/registry.js:175-178 | each step of the walk goes from an id to its parent |
| Forests.PathShape | src/registry.js:162-182 | for a registered key the path starts with it, goes to the parent at each step, reaches a top-level entry and ends with "*"; for an unregistered key it is exactly ["*"] |
| Forests.ClosedRemovalKeepsForest | src/registry.js:304-319 | deleting a set of ids that holds every child of its members keeps every parent registered or top level |
| Forests.Reparent | src/registry.js:247-254 | non-cascading removal drops exactly the entry, so the size falls by one |
| Forests.ReparentKeepsForest | src/registry.js:241-255 | handing the children to the removed entry's parent keeps the forest invariant |
| Forests.ReparentChain | src/registry.js:247-254 | after that removal, every other entry's path is its old path without the removed entry |
| Forests.AddedSucceeds | src/registry.js:44-59 | add succeeds iff the entry resolves to a new non-empty id and any parent given resolves to a registered id; it then adds exactly that id, under the parent or at top level, and leaves every other parent alone |
| Forests.AddedErrors | src/registry.js:44-53 | NullError for a falsy entry, DuplicateError for a registered one, NotFoundError naming an unregistered parent |
| Forests.AddKeepsForest | src/registry.js:49-57 | add keeps the forest invariant |
| Forests.AddedChains | src/registry.js:44-59 | after add, the new entry's path is the entry followed by its parent's path, and every other path is unchanged |
| Registries.FindChildren | src/registry.js:321-332 | the children of the parent id, each once |
| Registries.RemovalIsSubtree | src/registry.js:241-255 | the descendants removed plus the entry are exactly its subtree, and what is left is a forest |
| Registries.Registry.constructor | src/registry.js:12-15 | a new registry is empty |
| Registries.Registry.Has | src/registry.js:103-106 | NullError exactly for a falsy value; otherwise whether its id is registered |
| Registries.Registry.Add | src/registry.js:44-59 | the outcome and new hierarchy are `Added`'s; on success the original value is recorded under its id; on failure nothing changes |
| Registries.Registry.Clear | src/registry.js:64-67 | both maps are empty |
| Registries.Registry.HasChild | src/registry.js:114-122 | true exactly when some entry's parent is the given id |
| Registries.Registry.TraverseRoot | src/registry.js:162-182 | NullError exactly for a falsy value; otherwise the walk from the id to the root, then "*" |
| Registries.Registry.RemDescendants | src/registry.js:304-319 | deletes exactly a down-closed set of ids rooted at the given children, each once, all of them included; records and rank unchanged |
| Registries.Registry.RemOne | src/registry.js:307-315 | deletes one child and its whole subtree, the child first |
| Registries.Registry.Remove | src/registry.js:229-263 | NullError for a falsy or "" entry and NotFoundError for an unregistered one, with nothing changed; with cascade the returned ids are exactly the subtree, each once, the entry last; without cascade just the entry, its children moved to its parent; the records of the returned ids are deleted |
| Registries.Registry.Detach | src/registry.js:241-255 | the two branches of remove on a registered id, keeping the forest |
| Registries.Registry.CutSubtree | src/registry.js:245-246 | the cascading branch: exactly the subtree goes, the entry last |
| Registries.Registry.CutBelow | src/registry.js:241-246 | the descendants are removed and the entry kept; with the entry after them they are each once exactly its subtree, and removing the entry too leaves a forest |
| Registries.Registry.LiftChildren | src/registry.js:247-254 | the reparenting branch: the result is `Reparent` |
| Registries.Registry.MoveChildren | src/registry.js:248-250 | exactly the listed children get the new parent; every other entry is unchanged |
| Registries.Registry.DropRecords | src/registry.js:257-260 | the records of exactly the removed ids are deleted |
| Registries.Registry.ImportRegistry | src/registry.js:132-152 | the hierarchy and the records become the snapshot |
| Evaluation.RowNone | src/acl.js:332-343 | the inner loop finds nothing iff every resource on the path gives null for this role |
| Evaluation.RowFirst | src/acl.js:332-343 | the inner loop returns the answer of the first resource that gives one |
| Evaluation.DecideNone | src/acl.js:330-346 | the walk finds nothing (and isAllowed falls back to false) iff every (role, resource) pair on the paths gives null |
| Evaluation.DecideFirst | src/acl.js:330-344 | the walk returns the answer of the first answering pair in role-major order |
| Evaluation.DenyNegatesAllow | src/acl.js:387-424 | for an action other than ALL, isDenied's walk gives isAllowed's answer negated |
| Evaluation.RowNegates | src/acl.js:409-420 | the same for one role's inner loop |
| Evaluation.UnregisteredFallsToDefault | src/acl.js:310-347 | with both paths ["*"], only "*::*" is consulted |
| Evaluation.OwnTupleDecides | src/acl.js:330-344 | the tuple of the two path heads, if it answers, decides |
| Evaluation.FreshMatrixDenies | src/acl.js:310-347 | on a new matrix, any paths ending with "*" are denied: isAllowed's walk gives false and isDenied's true |
| Evaluation.InitialOnlyDefault | src/permission.js:28-35 | on a new matrix only "*::*" answers at all |
| Evaluation.DecideAnswerIsAProbe | src/acl.js:330-346 | any answer of the walk is the answer of some pair on the two paths |
| Evaluation.RowAnswerIsAProbe | src/acl.js:332-343 | any answer of the inner loop is the answer of some resource on the path |
| Acls.RegisteredKeeps | src/acl.js:76-85 | after an add whose error is ignored, every entry keeps its parent, and the ids registered are the old ones plus the entry's id unless it resolves to nothing |
| Acls.Orphaned | src/acl.js:198-209 | of the distinct parts other than "*", the empty id is among them iff the column holds it, and the unregistered ones are exactly the column's unregistered ids other than "*" |
| Acls.SafeOrphans | src/acl.js:188-212 | when every stored id is safe, some key part is an unregistered id iff some tuple names an unregistered role or resource, so hasOrphanPermissions answers about the tuples themselves |
| Acls.RoleOrphanIn | src/acl.js:205-209 | the role column holds an unregistered id other than "*" iff some tuple names such a role |
| Acls.ResourceOrphanIn | src/acl.js:199-203 | the resource column holds an unregistered id other than "*" iff some tuple names such a resource |
| Acls.GrantKeepsNoOrphans | src/acl.js:75-87 | because allow/deny register first, a matrix with no orphan ids keeps none |
| Acls.OwnTupleWins | src/acl.js:310-344 | for a registered role and resource, their own tuple decides whenever it answers |
| Acls.UnregisteredUsesDefault | src/acl.js:310-347 | for an unregistered role and resource only "*::*" decides |
| Acls.FreshAclDenies | src/acl.js:310-347 | with a new matrix every query is denied, whatever the hierarchies |
| Acls.Register | src/acl.js:76-80 | the ignored add leaves the registry as `Added` would make it, or unchanged on error |
| Acls.RemoveEachRole | src/acl.js:512-514 | after removeByRole for every id, exactly the tuples of those roles are gone, and the key order loses exactly them |
| Acls.RemoveEachResource | src/acl.js:494-496 | after removeByResource for every id, exactly the tuples of those resources are gone, and the key order loses exactly them |
| Acls.Unregistered | src/acl.js:200-204 | the orphan loop keeps, in order, the ids that are not registered, and fails with NullError iff an id is "" |
| Acls.Acl.constructor | src/acl.js:17-21 | the ACL holds the three given collaborators |
| Acls.Acl.AddResource | src/acl.js:28-30 | the resource registry's add, with its errors |
| Acls.Acl.AddRole | src/acl.js:37-39 | the role registry's add, with its errors |
| Acls.Acl.Allow | src/acl.js:75-87 | the role and the resource are registered if possible (add errors ignored); then NullError for a falsy one, else the action is allowed on their tuple |
| Acls.Acl.Deny | src/acl.js:130-142 | the same, denying the action |
| Acls.Acl.AllowAllResource | src/acl.js:45-53 | registers the role, then allows ALL on (role, "*") |
| Acls.Acl.AllowAllRole | src/acl.js:59-67 | registers the resource, then allows ALL on ("*", resource) |
| Acls.Acl.DenyAllResource | src/acl.js:102-109 | registers the role, then denies ALL on (role, "*") |
| Acls.Acl.DenyAllRole | src/acl.js:115-122 | registers the resource, then denies ALL on ("*", resource) |
| Acls.Acl.Clear | src/acl.js:92-96 | the matrix and both registries are empty |
| Acls.Acl.MakeDefaultAllow | src/acl.js:459-461 | "*::*" becomes {ALL: true} |
| Acls.Acl.MakeDefaultDeny | src/acl.js:466-468 | "*::*" becomes {ALL: false} |
| Acls.Acl.Remove | src/acl.js:477-479 | the matrix's remove, with its errors |
| Acls.Acl.RemoveRole | src/acl.js:505-515 | null is refused; otherwise registry errors pass through with nothing changed; on success the role (with its subtree under cascade) leaves the registry and its records, and exactly the tuples of the removed roles leave the matrix |
| Acls.Acl.RemoveResource | src/acl.js:487-497 | the same for a resource |
| Acls.Acl.ImportPermissions | src/acl.js:269-274 | fails iff the matrix is not empty, changing nothing; otherwise the matrix becomes the snapshot |
| Acls.Acl.ImportResources | src/acl.js:282-287 | fails iff the resource registry is not empty, changing nothing; otherwise it becomes the snapshot |
| Acls.Acl.ImportRoles | src/acl.js:295-300 | fails iff the role registry is not empty, changing nothing; otherwise it becomes the snapshot |
| Acls.Acl.GetOrphanPermissions | src/acl.js:188-212 | null for an empty matrix; InvalidError iff some key does not split into two parts; otherwise NullError iff some key part is empty; otherwise the unregistered resource parts and role parts other than "*", each once, in first-seen order, and a part is listed iff some key has it and it is unregistered |
| Acls.Acl.HasOrphanPermissions | src/acl.js:237-249 | false for an empty matrix; the same InvalidError and NullError cases; otherwise true iff some resource or role part other than "*" is unregistered |
| Acls.Acl.Walk | src/acl.js:330-346 | the nested loops return `Decide`, the first non-null answer in role-major order, or null |
| Acls.Acl.Query | src/acl.js:333-338 | one probe of the walk is the aggregate query for ALL and the per-action query otherwise, on the tuple of the two ids |
| Acls.Acl.IsAllowed | src/acl.js:310-347 | NullError iff the role or resource is falsy; otherwise `Decide` over the two paths to the root for the action (ALL when missing), with false when nothing answers |
| Acls.Acl.IsDenied | src/acl.js:387-424 | the same with the deny queries |
| Acls.Acl.IsAllowedStrict | src/acl.js:359-377 | true iff the exact tuple (falsy ids as "*") is allowed; null counts as false |
| Acls.Acl.IsDeniedStrict | src/acl.js:436-454 | true iff the exact tuple (falsy ids as "*") is denied; null counts as false |

## Left out

- Tracing and display are output only and left out. This covers `console.debug` under `traceLevel`, `toString`, `display`, `visualize*` and `setTraceLevel*`.
- `exportAll`, `export*`, `getResource` and `getRole` are left out. They call `export` and `getRecord`, which the src/registry.js of this repository does not define, and they only copy or read records, which evaluation never uses.
- `importAll` is only the three import guards in sequence. Each guard is modelled.
- Record values are opaque `Input` values. Cloning them (`Object.assign`) and the instantiator constructor of `importRegistry` are not modelled.
- Acls.Acl.ImportResources: calls `resources.import`, which the src/registry.js of this repository names `importRegistry`; the model calls the latter.
- Registries.Registry.ImportRegistry requires the snapshot to be a forest, with a ghost rank as witness. The source copies any object, and a cyclic snapshot would make `traverseRoot` loop forever.
- Acls.Acl.ImportResources and Acls.Acl.ImportRoles require the snapshot to be a forest, with a ghost rank as witness. The source accepts any object, and a cyclic snapshot would make `traverseRoot` loop forever.
- Permissions.Permission.ImportMap takes the snapshot's key order as an explicit duplicate-free list of its tuples. The `hasOwnProperty` filtering of inherited JavaScript keys has no counterpart in Dafny maps. A snapshot key with no "::" in it cannot be written as a pair, so such a snapshot is not modelled.
- Registries.Registry.Has: the source tests `this.registry[id] !== undefined`, so on a plain JavaScript object an inherited name such as "toString" or "constructor" counts as registered (add("toString") throws DuplicateError, and traverseRoot("constructor") starts there). The model's registry is a map with no inherited names, so such ids count as unregistered.
- JavaScript object key order is modelled only where results depend on it. That is the matrix's key order, which fixes `getRoleKeys`/`getResourceKeys` and the orphan lists.
  - A registry's key order is not modelled, so `findChildren` returns the children in an unspecified order.
  - Registries.Registry.Remove: states that a cascade returns exactly the subtree, each id once, the entry last; the order of the descendants among themselves follows registry key order and is not stated.
- Permissions.Permission.Allow stores a tuple as a pair, while the source stores it under the string `role::resource`. Two pairs whose joined strings coincide, such as ("a:", "b") and ("a", ":b") (both "a:::b"), are one entry in the source and two in the model. Then `size`, `isAllowed` and the other queries can differ. Where every id is safe (no "::" inside, no ':' at either end), `TupleKeys.MakeKeyInjective` shows the two forms agree. The InvalidError of `separateKeys` is modelled on the joined strings, so a stored id holding "::" does give it.
- Permissions.Permission.Deny: the same pair-versus-string gap as Allow.
- Permissions.Permission.Size: counts pairs, so with colliding ids (previous line) it can exceed the source's key count.
- Error messages are represented by error constructors with their arguments. The message text is not.
- `Acl` requires its resource and role registries to be distinct objects. The source would accept one registry passed twice, and that aliasing is not modelled.
- Actions are parsed into the `Action` datatype. The empty or missing action becomes ALL, as in the source. The JavaScript `Types` keys and values coincide, so `for (type in Types)` is the list of named actions.
- Permissions.Permission.IsAllowed: its own contract says only that an answer requires the tuple to be present; what it answers is `Matrices.Allowed` (its body), whose behaviour the `Matrices` lemmas state.
- `Registry.size` is the function `Size` over the registry map. It carries no contract of its own. The size changes after add and remove are stated by `Forests.AddedSucceeds` and `Forests.Reparent`.
- src/error.js and src/archly.js are not part of this model. The first only defines error classes, which `Common.Error` replaces; the second only wires the classes together.

## Findings

| source | as written | input that shows it | evidently intended | confidence | as-written member | corrected member |
|---|---|---|---|---|---|---|
| src/permission.js:697-709 | removeByResource deletes every key that ends with `"::" + resourceId`, and keys are plain `role::resource` strings | removeByResource("b") when the matrix holds the tuple of role "x" and resource ":b" (key "x:::b"): that tuple is deleted although its resource is not "b" | delete exactly the tuples whose resource is the given id | not executed | TupleKeys.ResourceSuffixOvermatches | Matrices.DropResourceExact |
| src/permission.js:717-729 | removeByRole deletes every key that starts with `roleId + "::"`, and keys are plain `role::resource` strings | removeByRole("a") when the matrix holds the tuple of role "a:" and resource "x" (key "a:::x"): that tuple is deleted although its role is not "a"; likewise the tuples ("a:", "b") and ("a", ":b") share the key "a:::b" | delete exactly the tuples whose role is the given id | not executed | TupleKeys.RolePrefixOvermatches | Matrices.DropRoleExact |
