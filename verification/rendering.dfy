/** `RequireRolePolicy.ToString`: the type name, then the required roles
    joined by " or " in parentheses. */
module Rendering {
  import opened Roles
  import opened Policy

  /** What `base.ToString()` returns: the full name of the policy's type. */
  const TypeName := "FluentSecurity.Policy.RequireRolePolicy"
  const Separator := " or "

  /** The type name followed by `list` in parentheses. */
  function Decorated(list: string): string
  {
    TypeName + " (" + list + ")"
  }

  /** `parts` joined by `sep`, with no separator before the first part or
      after the last. */
  function Join(parts: seq<string>, sep: string): string
  {
    if |parts| == 0 then ""
    else if |parts| == 1 then parts[0]
    else parts[0] + sep + Join(parts[1..], sep)
  }

  /** The roles as `AppendFormat` renders them, in order. */
  function Texts(roles: seq<RoleRef>): (ts: seq<string>)
    ensures |ts| == |roles|
    ensures forall i :: 0 <= i < |roles| ==> ts[i] == FormatArg(roles[i])
  {
    if |roles| == 0 then [] else [FormatArg(roles[0])] + Texts(roles[1..])
  }

  /** The contents of the `StringBuilder` after `AppendFormat("{0} or ", r)`
      for every required role `r`: each role followed by a separator. */
  function Builder(roles: seq<RoleRef>): (b: string)
    ensures |roles| > 0 ==> b == Join(Texts(roles), Separator) + Separator
  {
    if |roles| == 0 then ""
    else FormatArg(roles[0]) + Separator + Builder(roles[1..])
  }

  /** `ToString()`: the builder's contents minus the trailing separator,
      wrapped as " (...)" after the type name; only the type name when
      there are no roles, which construction never allows. */
  function ToString(p: RequireRolePolicy): (s: string)
    ensures |p.RolesRequired()| == 0 ==> s == TypeName
    ensures |p.RolesRequired()| > 0 ==> s == Decorated(Join(Texts(p.RolesRequired()), Separator))
  {
    var roles := p.RolesRequired();
    if |roles| > 0 then
      var b := Builder(roles);
      Decorated(b[..|b| - |Separator|])
    else TypeName
  }

  /** Joining one more part adds exactly one separator, before it. */
  lemma {:induction false} JoinSnoc(parts: seq<string>, x: string, sep: string)
    requires |parts| > 0
    ensures Join(parts + [x], sep) == Join(parts, sep) + sep + x
  {
    if |parts| == 1 {
      assert (parts + [x])[1..] == [x];
    } else {
      assert (parts + [x])[1..] == parts[1..] + [x];
      JoinSnoc(parts[1..], x, sep);
    }
  }

  /** Adding a required role at the end extends the joined list by
      " or " and that role, just before the closing parenthesis. */
  lemma ToStringSnoc(roles: seq<RoleRef>, r: RoleRef)
    requires |roles| > 0
    ensures ToString(RequireRolePolicy(roles + [r]))
              == Decorated(Join(Texts(roles), Separator) + Separator + FormatArg(r))
  {
    TextsSnoc(roles, r);
    JoinSnoc(Texts(roles), FormatArg(r), Separator);
  }

  /** Rendering the roles commutes with appending one. */
  lemma TextsSnoc(roles: seq<RoleRef>, r: RoleRef)
    ensures Texts(roles + [r]) == Texts(roles) + [FormatArg(r)]
  {
  }

  /** A policy requiring the single role "admin" renders as
      "FluentSecurity.Policy.RequireRolePolicy (admin)". */
  lemma ToStringSingleRole(identity: nat)
    ensures ToString(RequireRolePolicy([Ref(Role(identity, "admin"))]))
              == "FluentSecurity.Policy.RequireRolePolicy (admin)"
  {
  }

  /** Every valid policy renders with the suffix: the type name, " (", and a
      closing ")". */
  lemma ToStringShape(p: RequireRolePolicy)
    requires p.Valid()
    ensures var s := ToString(p);
            && |s| >= |TypeName| + 3
            && s[..|TypeName| + 2] == TypeName + " ("
            && s[|s| - 1] == ')'
  {
  }

  /** A null required role renders as an empty part: [null, "admin"]
      renders as "FluentSecurity.Policy.RequireRolePolicy ( or admin)". */
  lemma ToStringNullRole(identity: nat)
    ensures ToString(RequireRolePolicy([NullRef, Ref(Role(identity, "admin"))]))
              == "FluentSecurity.Policy.RequireRolePolicy ( or admin)"
  {
  }
}
