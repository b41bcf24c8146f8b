/** The `RequireRolePolicy` object and its construction-time validation. */
module Policy {
  import opened Wrappers
  import opened Roles

  /** A role-requirement policy: the roles of which the actor needs one. */
  datatype RequireRolePolicy = RequireRolePolicy(requiredRoles: seq<RoleRef>)
  {
    /** What construction guarantees of every policy: at least one role. */
    predicate Valid()
    {
      |requiredRoles| > 0
    }

    /** The `RolesRequired` property: the array given to the constructor. */
    function RolesRequired(): seq<RoleRef>
    {
      requiredRoles
    }
  }

  /** The `ArgumentException` the constructor throws. */
  datatype ArgumentError = ArgumentError(message: string)

  const NullRolesMessage := "Required roles must not be null"
  const EmptyRolesMessage := "Required roles must be specified"

  /** The constructor `new RequireRolePolicy(params object[] requiredRoles)`;
      `None` is a null array. A null ELEMENT is accepted. */
  function New(requiredRoles: Option<seq<RoleRef>>): (r: Result<RequireRolePolicy, ArgumentError>)
    ensures requiredRoles.None? ==> r == Failure(ArgumentError(NullRolesMessage))
    ensures requiredRoles == Some([]) ==> r == Failure(ArgumentError(EmptyRolesMessage))
    ensures r.Success? <==> requiredRoles.Some? && |requiredRoles.value| > 0
    ensures r.Success? ==> r.value.Valid() && r.value.RolesRequired() == requiredRoles.value
  {
    match requiredRoles
    case None => Failure(ArgumentError(NullRolesMessage))
    case Some(roles) =>
      if |roles| == 0 then Failure(ArgumentError(EmptyRolesMessage))
      else Success(RequireRolePolicy(roles))
  }
}
