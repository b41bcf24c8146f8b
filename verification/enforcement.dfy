/** `RequireRolePolicy.Enforce`: the authorisation decision. */
module Enforcement {
  import opened Wrappers
  import opened Roles
  import opened Policy

  /** What `ISecurityContext` tells the policy: whether the current user is
      authenticated, and the user's roles (`None` for a null array). */
  datatype SecurityContext = SecurityContext(authenticated: bool, roles: Option<seq<RoleRef>>)

  /** How a call to `Enforce` ends: it returns normally, it throws a
      `PolicyViolationException<RequireRolePolicy>` carrying `message`, or a
      null role's `ToString()` throws a `NullReferenceException`. */
  datatype Outcome = Allowed | Denied(message: string) | NullReference

  const AnonymousAccessDenied := "Anonymous access denied"
  const AccessDenied := "Access denied"
  const NoMatchPrefix := "Access requires one of the following roles: "

  /** The denial when no role matches. The format string is applied to the
      current roles array itself, which C# binds as the `params` argument
      array, so `{0}` is the FIRST CURRENT role, not a required one. */
  function NoMatchMessage(current: seq<RoleRef>): string
    requires |current| > 0
  {
    NoMatchPrefix + FormatArg(current[0])
  }

  /** A required role and a current role match: both print the same. */
  predicate Matches(r: RoleRef, c: RoleRef)
  {
    r.Ref? && c.Ref? && r.role.text == c.role.text
  }

  /** The pair ends the scan: it matches, or one side is null and its
      `ToString()` throws. */
  predicate Stops(r: RoleRef, c: RoleRef)
  {
    r.NullRef? || c.NullRef? || Matches(r, c)
  }

  /** No pair in the first `i` rows of the scan stops it. */
  predicate RowsClear(required: seq<RoleRef>, current: seq<RoleRef>, i: int)
    requires 0 <= i <= |required|
  {
    forall i', j' :: 0 <= i' < i && 0 <= j' < |current| ==> !Stops(required[i'], current[j'])
  }

  /** No pair of `r` with the first `j` current roles stops the scan. */
  predicate PrefixClear(r: RoleRef, current: seq<RoleRef>, j: int)
    requires 0 <= j <= |current|
  {
    forall j' :: 0 <= j' < j ==> !Stops(r, current[j'])
  }

  /** (i, j) is the first pair, in the order the two nested loops visit
      them, that stops the scan. */
  predicate FirstStop(required: seq<RoleRef>, current: seq<RoleRef>, i: int, j: int)
  {
    && 0 <= i < |required| && 0 <= j < |current|
    && Stops(required[i], current[j])
    && RowsClear(required, current, i)
    && PrefixClear(required[i], current, j)
  }

  /** The result of scanning every required role against every current role. */
  function Scan(required: seq<RoleRef>, current: seq<RoleRef>): Outcome
    requires |current| > 0
  {
    if exists i, j | 0 <= i < |required| && 0 <= j < |current| ::
         FirstStop(required, current, i, j) && Matches(required[i], current[j])
    then Allowed
    else if exists i, j | 0 <= i < |required| && 0 <= j < |current| :: FirstStop(required, current, i, j)
    then NullReference
    else Denied(NoMatchMessage(current))
  }

  /** The decision `Enforce` reaches, stated without loops. */
  function Decide(required: seq<RoleRef>, context: SecurityContext): Outcome
  {
    if !context.authenticated then Denied(AnonymousAccessDenied)
    else if context.roles.None? || |context.roles.value| == 0 then Denied(AccessDenied)
    else Scan(required, context.roles.value)
  }

  /** At most one pair is the first to stop the scan. */
  lemma FirstStopUnique(required: seq<RoleRef>, current: seq<RoleRef>, i: int, j: int, i2: int, j2: int)
    requires FirstStop(required, current, i, j) && FirstStop(required, current, i2, j2)
    ensures i == i2 && j == j2
  {
  }

  /** If some pair stops the scan, a first such pair exists. */
  lemma {:induction false} FirstStopExists(required: seq<RoleRef>, current: seq<RoleRef>, i: int, j: int)
    requires 0 <= i < |required| && 0 <= j < |current|
    requires Stops(required[i], current[j])
    ensures exists i2, j2 | 0 <= i2 < |required| && 0 <= j2 < |current| :: FirstStop(required, current, i2, j2)
    decreases i, j
  {
    if !RowsClear(required, current, i) {
      var i', j' :| 0 <= i' < i && 0 <= j' < |current| && Stops(required[i'], current[j']);
      FirstStopExists(required, current, i', j');
    } else if !PrefixClear(required[i], current, j) {
      var j' :| 0 <= j' < j && Stops(required[i], current[j']);
      FirstStopExists(required, current, i, j');
    } else {
      assert FirstStop(required, current, i, j);
    }
  }

  /** With no null roles on either side, the scan allows exactly when some
      required role prints like some current role, and otherwise denies with
      the no-match message. */
  lemma ScanWithoutNulls(required: seq<RoleRef>, current: seq<RoleRef>)
    requires |current| > 0 && NoNulls(required) && NoNulls(current)
    ensures Scan(required, current) == Allowed <==>
              exists i, j :: 0 <= i < |required| && 0 <= j < |current| && Matches(required[i], current[j])
    ensures Scan(required, current) != Allowed ==> Scan(required, current) == Denied(NoMatchMessage(current))
  {
    if exists i, j :: 0 <= i < |required| && 0 <= j < |current| && Matches(required[i], current[j]) {
      var i, j :| 0 <= i < |required| && 0 <= j < |current| && Matches(required[i], current[j]);
      FirstStopExists(required, current, i, j);
      var i2, j2 :| 0 <= i2 < |required| && 0 <= j2 < |current| && FirstStop(required, current, i2, j2);
      assert Matches(required[i2], current[j2]);
    } else {
      assert forall i, j :: 0 <= i < |required| && 0 <= j < |current| ==> !FirstStop(required, current, i, j);
    }
  }

  /** `Enforce`: anonymous users are denied, users without roles are
      denied, and otherwise the required roles are scanned, outer loop over
      the required roles and inner loop over the current roles, until a pair
      prints alike (allowed) or a null role is touched (it throws). */
  method Enforce(policy: RequireRolePolicy, context: SecurityContext) returns (o: Outcome)
    ensures o == Decide(policy.RolesRequired(), context)
    ensures !context.authenticated ==> o == Denied(AnonymousAccessDenied)
    ensures context.authenticated && (context.roles.None? || context.roles.value == []) ==> o == Denied(AccessDenied)
    ensures context.authenticated && context.roles.Some? && |context.roles.value| > 0
            && NoNulls(policy.RolesRequired()) && NoNulls(context.roles.value)
            ==> (o == Allowed <==>
                   exists i, j :: 0 <= i < |policy.RolesRequired()| && 0 <= j < |context.roles.value|
                                  && Matches(policy.RolesRequired()[i], context.roles.value[j]))
                && (o != Allowed ==> o == Denied(NoMatchMessage(context.roles.value)))
    ensures o == NullReference ==> !NoNulls(policy.RolesRequired()) || !NoNulls(context.roles.value)
  {
    if !context.authenticated {
      return Denied(AnonymousAccessDenied);
    }
    if context.roles.None? || |context.roles.value| == 0 {
      return Denied(AccessDenied);
    }
    var required := policy.RolesRequired();
    var current := context.roles.value;
    var i := 0;
    while i < |required|
      invariant 0 <= i <= |required|
      invariant RowsClear(required, current, i)
    {
      var j := 0;
      while j < |current|
        invariant 0 <= j <= |current|
        invariant PrefixClear(required[i], current, j)
      {
        if required[i].NullRef? || current[j].NullRef? {
          assert FirstStop(required, current, i, j);
          forall i2, j2 | 0 <= i2 < |required| && 0 <= j2 < |current| && FirstStop(required, current, i2, j2)
            ensures !Matches(required[i2], current[j2])
          {
            FirstStopUnique(required, current, i, j, i2, j2);
          }
          return NullReference;
        }
        if required[i].role.text == current[j].role.text {
          assert FirstStop(required, current, i, j);
          ScanWithoutNullsIfNoNulls(required, current);
          return Allowed;
        }
        j := j + 1;
      }
      i := i + 1;
    }
    assert forall i, j :: 0 <= i < |required| && 0 <= j < |current| ==> !FirstStop(required, current, i, j);
    ScanWithoutNullsIfNoNulls(required, current);
    return Denied(NoMatchPrefix + FormatArg(current[0]));
  }

  /** `ScanWithoutNulls`, applied only when its premise holds. */
  lemma ScanWithoutNullsIfNoNulls(required: seq<RoleRef>, current: seq<RoleRef>)
    requires |current| > 0
    ensures NoNulls(required) && NoNulls(current) ==>
              (Scan(required, current) == Allowed <==>
                 exists i, j :: 0 <= i < |required| && 0 <= j < |current| && Matches(required[i], current[j]))
              && (Scan(required, current) != Allowed ==> Scan(required, current) == Denied(NoMatchMessage(current)))
  {
    if NoNulls(required) && NoNulls(current) {
      ScanWithoutNulls(required, current);
    }
  }

  /** Reordering preserves membership, so it preserves `NoNulls`. */
  lemma NoNullsReordered(rs: seq<RoleRef>, rs': seq<RoleRef>)
    requires multiset(rs) == multiset(rs') && NoNulls(rs)
    ensures NoNulls(rs')
  {
    forall i | 0 <= i < |rs'|
      ensures rs'[i].Ref?
    {
      assert rs'[i] in multiset(rs');
      assert rs'[i] in rs;
    }
  }

  /** With no null roles, whether `Enforce` allows does not depend on the
      order of either the required roles or the current roles. */
  lemma DecisionIgnoresOrder(required: seq<RoleRef>, required': seq<RoleRef>,
                             context: SecurityContext, context': SecurityContext)
    requires context.authenticated == context'.authenticated
    requires context.roles.Some? <==> context'.roles.Some?
    requires context.roles.Some? ==>
               multiset(context.roles.value) == multiset(context'.roles.value) && NoNulls(context.roles.value)
    requires multiset(required) == multiset(required') && NoNulls(required)
    ensures Decide(required, context) == Allowed <==> Decide(required', context') == Allowed
  {
    if context.authenticated && context.roles.Some? && |context.roles.value| > 0 {
      var current, current' := context.roles.value, context'.roles.value;
      assert |current'| == |multiset(current')| == |multiset(current)| == |current|;
      NoNullsReordered(required, required');
      NoNullsReordered(current, current');
      ScanWithoutNulls(required, current);
      ScanWithoutNulls(required', current');
      if exists i, j :: 0 <= i < |required| && 0 <= j < |current| && Matches(required[i], current[j]) {
        var i, j :| 0 <= i < |required| && 0 <= j < |current| && Matches(required[i], current[j]);
        assert required[i] in multiset(required');
        assert current[j] in multiset(current');
        var i', j' :| 0 <= i' < |required'| && 0 <= j' < |current'| && required'[i'] == required[i] && current'[j'] == current[j];
        assert Matches(required'[i'], current'[j']);
      }
      if exists i', j' :: 0 <= i' < |required'| && 0 <= j' < |current'| && Matches(required'[i'], current'[j']) {
        var i', j' :| 0 <= i' < |required'| && 0 <= j' < |current'| && Matches(required'[i'], current'[j']);
        assert required'[i'] in multiset(required);
        assert current'[j'] in multiset(current);
        var i, j :| 0 <= i < |required| && 0 <= j < |current| && required[i] == required'[i'] && current[j] == current'[j'];
        assert Matches(required[i], current[j]);
      }
    } else if context.authenticated && context.roles.Some? {
      assert |context'.roles.value| == |multiset(context'.roles.value)| == 0;
    }
  }

  /** With a null required role, order does matter: the same two roles in
      the other order turn an allow into a `NullReferenceException`. */
  lemma NullOrderMatters(admin: Role)
    ensures Decide([Ref(admin), NullRef], SecurityContext(true, Some([Ref(admin)]))) == Allowed
    ensures Decide([NullRef, Ref(admin)], SecurityContext(true, Some([Ref(admin)]))) == NullReference
  {
    var current := [Ref(admin)];
    assert FirstStop([Ref(admin), NullRef], current, 0, 0);
    var nulled := [NullRef, Ref(admin)];
    assert FirstStop(nulled, current, 0, 0);
    forall i, j | 0 <= i < |nulled| && 0 <= j < |current| && FirstStop(nulled, current, i, j)
      ensures !Matches(nulled[i], current[j])
    {
      FirstStopUnique(nulled, current, 0, 0, i, j);
    }
  }

  /** The no-match denial depends on the current roles only: two policies
      that both fail to match the same user deny with the same message,
      whatever roles they require. */
  lemma NoMatchMessageIgnoresRequired(required: seq<RoleRef>, required': seq<RoleRef>, context: SecurityContext)
    requires context.authenticated && context.roles.Some? && |context.roles.value| > 0
    requires NoNulls(required) && NoNulls(required') && NoNulls(context.roles.value)
    requires Decide(required, context) != Allowed && Decide(required', context) != Allowed
    ensures Decide(required, context) == Decide(required', context)
               == Denied(NoMatchPrefix + FormatArg(context.roles.value[0]))
  {
  }
}
