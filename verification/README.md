# RequireRolePolicy, modelled in Dafny

FluentSecurity protects controller actions with security policies. This
project models its role-requirement policy, `RequireRolePolicy`:

- construction and its validation of the required roles;
- `Enforce`, the authorisation decision against a security context;
- `RolesRequired`;
- `Equals`, `GetHashCode` and `ToString`.

Exceptions become values. A failed construction is `Failure(ArgumentError(..))`.
A `PolicyViolationException<RequireRolePolicy>` is `Denied(message)`.
The security context is a plain value: an authenticated flag and an optional role array.

Files, one module each:

- `wrappers.dfy`: `Option` (a C# null) and `Result`.
- `roles.dfy`: role objects. A role has a `text` (its `ToString()`) and an `identity`. Together they decide `object.Equals`. Array elements may be null (`NullRef`).
- `policy.dfy`: the policy value, its constructor and `RolesRequired`.
- `enforcement.dfy`: `Enforce` as the nested loops of the code. It is proved equal to `Decide`, a loop-free statement: the first pair, in row-major order, that either matches or touches a null decides the outcome.
- `equality.dfy`: `Equals(object)` and `Equals(RequireRolePolicy)`, with lemmas about when they are order-free and when they are not symmetric.
- `hashing.dfy`: the unchecked 32-bit left fold of `GetHashCode`, the same fold on unbounded integers, and the corrected order-free hash.
- `rendering.dfy`: `ToString` built the way the code builds it. It is proved equal to an independent `Join`.

The model follows the code where it is easy to misread:

- Roles are compared by `ToString()` in `Enforce` but by `object.Equals` in `Equals`. The model keeps the two apart.
- `Equals` compares lengths and then checks one-way containment. It is not equality of role sets, and it is not symmetric when a list has duplicates.
- The no-match message shows only the FIRST current role. C# binds the current-roles `object[]` as the `params` argument array, so `{0}` is its first element.
- The rendering starts with the full type name `FluentSecurity.Policy.RequireRolePolicy`. That is what `base.ToString()` returns.
- A null role inside either array makes `Enforce` throw `NullReferenceException` when the scan reaches it. The model returns `NullReference` for this.

## Model

| member | source | states |
|---|---|---|
| `Policy.New` | FluentSecurity/Policy/RequireRolePolicy.cs:11-20 | a null array fails with "Required roles must not be null" and an empty one with "Required roles must be specified"; otherwise construction succeeds, the policy is valid, and `RolesRequired` returns exactly the given roles in order |
| `Enforcement.Enforce` | FluentSecurity/Policy/RequireRolePolicy.cs:22-44 | equals the loop-free decision `Decide`; anonymous users are always denied with "Anonymous access denied"; authenticated users with a null or empty role array are denied with "Access denied"; without nulls, the result is allowed iff some required role prints like some current role, and otherwise it is the no-match denial; a null-reference outcome needs a null role |
| `Enforcement.FirstStopExists` | FluentSecurity/Policy/RequireRolePolicy.cs:30-39 | if any pair of roles stops the nested scan, a first such pair in loop order exists |
| `Enforcement.ScanWithoutNulls` | FluentSecurity/Policy/RequireRolePolicy.cs:30-43 | with no nulls, the scan allows iff a required and a current role have equal string forms; otherwise it denies with the prefix followed by the first current role |
| `Enforcement.DecisionIgnoresOrder` | FluentSecurity/Policy/RequireRolePolicy.cs:30-39 | with no nulls, reordering the required roles or the current roles never changes whether access is allowed |
| `Enforcement.NullOrderMatters` | FluentSecurity/Policy/RequireRolePolicy.cs:30-38 | with a null required role the order does matter: [admin, null] allows an admin, [null, admin] throws a null reference |
| `Enforcement.NoMatchMessageIgnoresRequired` | FluentSecurity/Policy/RequireRolePolicy.cs:41-43 | the no-match message depends only on the current roles: any two non-matching policies deny one user with the same message, built from the user's first role |
| `Equality.AllContained` | FluentSecurity/Policy/RequireRolePolicy.cs:60 | the LINQ `All(Contains)` scan is true iff every element of the first list occurs in the second |
| `Equality.EqualsPolicy` | FluentSecurity/Policy/RequireRolePolicy.cs:56-61 | false against null; otherwise true iff the lengths agree and every own role is contained in the other's roles |
| `Equality.EqualsObject` | FluentSecurity/Policy/RequireRolePolicy.cs:51-54 | false for null and for objects of other types; for a policy it agrees with the policy comparison |
| `Equality.EqualsReflexive` | FluentSecurity/Policy/RequireRolePolicy.cs:51-61 | every policy equals itself, through both overloads |
| `Equality.EqualsHoldsForPermutations` | FluentSecurity/Policy/RequireRolePolicy.cs:59-60 | two policies whose roles are permutations of each other are equal in both directions, duplicates included |
| `Equality.DistinctCardinality` | FluentSecurity/Policy/RequireRolePolicy.cs:59 | a duplicate-free role list has as many distinct roles as entries, which is what makes the length check meaningful |
| `Equality.EqualsIsPermutationOnDistinct` | FluentSecurity/Policy/RequireRolePolicy.cs:59-60 | for duplicate-free lists, `Equals` holds iff one list is a permutation of the other |
| `Equality.EqualsSymmetricOnDistinct` | FluentSecurity/Policy/RequireRolePolicy.cs:56-61 | for duplicate-free lists, `Equals` is symmetric |
| `Equality.EqualsNotSymmetric` | FluentSecurity/Policy/RequireRolePolicy.cs:59-60 | with a duplicate it is not: [a, a] equals [a, b], but [a, b] does not equal [a, a] |
| `Equality.SameRolesMatchesEquals` | FluentSecurity/Policy/RequireRolePolicy.cs:56-61 | the corrected equality (the same set of roles) is reflexive, symmetric and transitive; it holds whenever `Equals` holds both ways, and it coincides with `Equals` on duplicate-free lists |
| `Equality.SameRolesExamples` | FluentSecurity/Policy/RequireRolePolicy.cs:59-60 | for different roles a and b: both relations call [a, a, b] and [a, b, b] equal; the corrected equality rejects [a, a] against [a, b] in both directions, while `Equals` accepts one; only the corrected equality accepts [a] against [a, a] |
| `Hashing.Wrap32` | FluentSecurity/Policy/RequireRolePolicy.cs:65-76 | `unchecked` arithmetic keeps the 32-bit value congruent to the exact one modulo 2^32, and leaves in-range values unchanged |
| `Hashing.AggregateSnoc` | FluentSecurity/Policy/RequireRolePolicy.cs:70-73 | the hash is a left fold: appending a role applies one more `h * 23 + roleHash` step (a null role adds 0) to the previous hash |
| `Hashing.AggregateIsWrappedExactHash` | FluentSecurity/Policy/RequireRolePolicy.cs:67-75 | the unchecked fold, wrapping at every step, equals the same fold on unbounded integers wrapped once at the end |
| `Hashing.GetHashCode` | FluentSecurity/Policy/RequireRolePolicy.cs:63-77 | a policy's hash is the same fold on unbounded integers over its required roles, seeded with 17, reduced to 32 bits |
| `Hashing.EqualPoliciesHashDifferently` | FluentSecurity/Policy/RequireRolePolicy.cs:63-77 | the hash depends on order: [a, b] and [b, a] are equal both ways, yet hash to 9018 and 9040 when a hashes to 1 and b to 2 |
| `Hashing.DistinctHashSumIsSetSum` | FluentSecurity/Policy/RequireRolePolicy.cs:63-77 | the corrected hash's sum over the distinct roles of a list equals the sum over its set of roles, so order and repetition do not affect it |
| `Hashing.OrderFreeHashRespectsSameRoles` | FluentSecurity/Policy/RequireRolePolicy.cs:63-77 | the corrected hash is equal for any two policies that require the same set of roles |
| `Rendering.Builder` | FluentSecurity/Policy/RequireRolePolicy.cs:85-87 | for a non-empty list, the builder's contents are the roles joined by " or ", plus one trailing " or " |
| `Rendering.ToString` | FluentSecurity/Policy/RequireRolePolicy.cs:79-92 | with roles, the type name, then " (", the roles joined by " or " with no trailing separator, then ")"; without roles, the type name alone |
| `Rendering.JoinSnoc` | FluentSecurity/Policy/RequireRolePolicy.cs:86-89 | joining one more part adds exactly one separator, in front of it |
| `Rendering.ToStringSnoc` | FluentSecurity/Policy/RequireRolePolicy.cs:86-89 | a policy with one more role renders as before, with " or " and that role inserted before the closing parenthesis |
| `Rendering.ToStringSingleRole` | FluentSecurity/Policy/RequireRolePolicy.cs:79-92 | a policy requiring "admin" renders as "FluentSecurity.Policy.RequireRolePolicy (admin)" |
| `Rendering.ToStringNullRole` | FluentSecurity/Policy/RequireRolePolicy.cs:86-87 | a null role renders as an empty part: [null, admin] gives "FluentSecurity.Policy.RequireRolePolicy ( or admin)" |
| `Rendering.ToStringShape` | FluentSecurity/Policy/RequireRolePolicy.cs:83-91 | every constructed policy renders with the suffix: type name, " (" and a closing ")" |

## Left out

- FluentSecurity/ISecurityConfiguration.cs: this is an interface with signatures only, so it has no behaviour to state. Configuration, policy containers, append strategies, the policy runner and the "what do I have" report are not part of this model.
- `ISecurityContext`: it is a plain value here, not a live service. `CurrenUserRoles()` is called several times in `Enforce`; the model assumes it returns the same array each time.
- `role.ToString()`, `role.GetHashCode()` and `base.ToString()` are runtime behaviour outside this code. They are modelled as the role's `text`, a `hashOf` parameter, and the constant full type name.
- Exceptions are values, not thrown objects. `Denied` carries only the message; the exception's type parameter always names `RequireRolePolicy`.
- `Hashing.GetHashCode`: the null check on `RolesRequired` is not modelled. A role sequence is never null, and construction rejects a null array anyway.
- Strings are sequences of Dafny characters. .NET's UTF-16 code units, culture-sensitive formatting and `builder.ToString(0, length - 4)` on surrogate pairs are not modelled.
- Shared role array: the constructor keeps the caller's own `object[]`, and `RolesRequired` hands that same array back. Anyone holding it can change its elements in place after construction, for example by setting an element to another role or to null. Later calls to `Enforce`, `Equals`, `GetHashCode` and `ToString` then see the new contents. The model's role sequence is an immutable value, so this aliasing is not modelled. Each member is faithful for the array's contents at the time of the call. `Valid()` still holds, because an array's length cannot change.
- Concurrency: not modelled. `Enforce` reads only its arguments and the role array, and that array can be changed by another thread, as described above.

## Findings

| source | as written | input that shows it | evidently intended | confidence | as-written member | corrected member |
|---|---|---|---|---|---|---|
| FluentSecurity/Policy/RequireRolePolicy.cs:59-60 | equal lengths plus one-way containment | [a, a] equals [a, b], but [a, b] does not equal [a, a] | a symmetric, order-free comparison of the required roles as sets | medium, not executed | `Equality.EqualsNotSymmetric` | `Equality.SameRolesMatchesEquals` |
| FluentSecurity/Policy/RequireRolePolicy.cs:63-77 | an order-sensitive fold | [a, b] and [b, a] with role hashes 1 and 2: `Equals` holds both ways, the hashes are 9018 and 9040 | equal policies hash alike, as `object.GetHashCode` requires | high, not executed | `Hashing.EqualPoliciesHashDifferently` | `Hashing.OrderFreeHashRespectsSameRoles` |

The corrected equality is `Equality.SameRoles`: the two policies require the same set of roles. It keeps every answer `Equals` gives in both directions, such as [a, a, b] against [a, b, b]. It differs from the code in two cases, both shown by `Equality.SameRolesExamples`. It rejects [a, a] against [a, b], which `Equals` accepts in one direction. It accepts [a] against [a, a], which the length check of `Equals` rejects. The corrected hash is `Hashing.OrderFreeHash`: 17 plus the hashes of the distinct roles, reduced to 32 bits. Nothing else in the model compares or hashes policies. `Equality.EqualsPolicy` and `Hashing.GetHashCode` stay the models of the code as written.
