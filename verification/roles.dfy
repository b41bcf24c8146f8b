/** Role values as the policy sees them: the elements of an `object[]`. */
module Roles {

  /** A non-null role object. `text` is what its `ToString()` returns;
      `identity` stands for whatever else decides `object.Equals` between
      two roles (their runtime type, or their reference for a class that
      does not override `Equals`). Two roles are `Equals` exactly when they
      are equal as Dafny values, so equal roles always print alike, while
      roles that print alike need not be `Equals`. */
  datatype Role = Role(identity: nat, text: string)

  /** An element of a role array, which C# allows to be null. */
  datatype RoleRef = NullRef | Ref(role: Role)

  /** How `string.Format` and `StringBuilder.AppendFormat` render an
      argument: a null argument renders as the empty string. */
  function FormatArg(r: RoleRef): string
  {
    match r
    case NullRef => ""
    case Ref(role) => role.text
  }

  /** No element of `rs` is null. */
  predicate NoNulls(rs: seq<RoleRef>)
  {
    forall i :: 0 <= i < |rs| ==> rs[i].Ref?
  }
}
