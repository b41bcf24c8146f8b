/** `RequireRolePolicy.Equals`: same number of roles, and every own role
    contained (by `object.Equals`) in the other policy's roles. */
module Equality {
  import opened Wrappers
  import opened Roles
  import opened Policy

  /** The argument of `Equals(object)`: null, a `RequireRolePolicy`, or an
      object of some other type (for which `obj as RequireRolePolicy` is null). */
  datatype Object = NullObject | PolicyObject(policy: RequireRolePolicy) | OtherObject

  /** LINQ `xs.All(x => ys.Contains(x))`: scans `xs` front to back and stops
      at the first element missing from `ys`. */
  function AllContained(xs: seq<RoleRef>, ys: seq<RoleRef>): (r: bool)
    ensures r <==> forall i :: 0 <= i < |xs| ==> xs[i] in ys
  {
    if |xs| == 0 then true
    else if xs[0] !in ys then false
    else AllContained(xs[1..], ys)
  }

  /** `Equals(RequireRolePolicy other)`; `None` is a null `other`. */
  function EqualsPolicy(p: RequireRolePolicy, other: Option<RequireRolePolicy>): (r: bool)
    ensures other.None? ==> !r
    ensures other.Some? ==>
              (r <==> |p.RolesRequired()| == |other.value.RolesRequired()|
                      && forall i :: 0 <= i < |p.RolesRequired()| ==> p.RolesRequired()[i] in other.value.RolesRequired())
  {
    match other
    case None => false
    case Some(q) =>
      if |p.RolesRequired()| != |q.RolesRequired()| then false
      else AllContained(p.RolesRequired(), q.RolesRequired())
  }

  /** `Equals(object obj)`: false for null and for other types, otherwise
      the comparison of two policies. */
  function EqualsObject(p: RequireRolePolicy, obj: Object): (r: bool)
    ensures !obj.PolicyObject? ==> !r
    ensures obj.PolicyObject? ==> (r <==> EqualsPolicy(p, Some(obj.policy)))
  {
    match obj
    case PolicyObject(q) => EqualsPolicy(p, Some(q))
    case _ => EqualsPolicy(p, None)
  }

  /** No role occurs twice in `s`. */
  predicate Distinct(s: seq<RoleRef>)
  {
    forall i, j :: 0 <= i < j < |s| ==> s[i] != s[j]
  }

  /** The roles of `s`, as a set. */
  function Elements(s: seq<RoleRef>): set<RoleRef>
  {
    set x | x in s
  }

  /** Every policy equals itself. */
  lemma EqualsReflexive(p: RequireRolePolicy)
    ensures EqualsPolicy(p, Some(p))
    ensures EqualsObject(p, PolicyObject(p))
  {
  }

  /** Listing the same roles in another order (duplicates included) gives
      an equal policy, in both directions. */
  lemma EqualsHoldsForPermutations(p: RequireRolePolicy, q: RequireRolePolicy)
    requires multiset(p.RolesRequired()) == multiset(q.RolesRequired())
    ensures EqualsPolicy(p, Some(q)) && EqualsPolicy(q, Some(p))
  {
    var a, b := p.RolesRequired(), q.RolesRequired();
    assert |a| == |multiset(a)| == |multiset(b)| == |b|;
    forall i | 0 <= i < |a| ensures a[i] in b {
      assert a[i] in multiset(a);
    }
    forall i | 0 <= i < |b| ensures b[i] in a {
      assert b[i] in multiset(b);
    }
  }

  /** A duplicate-free sequence has as many elements as its set. */
  lemma {:induction false} DistinctCardinality(s: seq<RoleRef>)
    requires Distinct(s)
    ensures |Elements(s)| == |s|
  {
    if |s| > 0 {
      var rest := s[1..];
      assert Distinct(rest);
      DistinctCardinality(rest);
      assert Elements(s) == Elements(rest) + {s[0]};
      assert s[0] !in Elements(rest);
    }
  }

  /** In a duplicate-free sequence every member occurs exactly once. */
  lemma {:induction false} DistinctMultiplicity(s: seq<RoleRef>, x: RoleRef)
    requires Distinct(s)
    ensures multiset(s)[x] == if x in s then 1 else 0
  {
    if |s| > 0 {
      var rest := s[1..];
      assert s == [s[0]] + rest;
      assert Distinct(rest);
      DistinctMultiplicity(rest, x);
      assert s[0] !in rest;
    }
  }

  /** For duplicate-free role lists `Equals` is exactly "one is a
      permutation of the other". */
  lemma EqualsIsPermutationOnDistinct(p: RequireRolePolicy, q: RequireRolePolicy)
    requires Distinct(p.RolesRequired()) && Distinct(q.RolesRequired())
    ensures EqualsPolicy(p, Some(q)) <==> multiset(p.RolesRequired()) == multiset(q.RolesRequired())
  {
    var a, b := p.RolesRequired(), q.RolesRequired();
    if EqualsPolicy(p, Some(q)) {
      ContainmentIsSetEquality(a, b);
      forall x ensures multiset(a)[x] == multiset(b)[x] {
        DistinctMultiplicity(a, x);
        DistinctMultiplicity(b, x);
        assert x in a <==> x in Elements(a);
        assert x in b <==> x in Elements(b);
      }
    } else if multiset(a) == multiset(b) {
      EqualsHoldsForPermutations(p, q);
    }
  }

  /** For duplicate-free role lists `Equals` is symmetric. */
  lemma EqualsSymmetricOnDistinct(p: RequireRolePolicy, q: RequireRolePolicy)
    requires Distinct(p.RolesRequired()) && Distinct(q.RolesRequired())
    ensures EqualsPolicy(p, Some(q)) <==> EqualsPolicy(q, Some(p))
  {
    EqualsIsPermutationOnDistinct(p, q);
    EqualsIsPermutationOnDistinct(q, p);
  }

  /** With a duplicate, `Equals` is not symmetric: [a, a] equals [a, b],
      since both its roles occur in [a, b], but [a, b] does not equal
      [a, a], since b does not occur in it. */
  lemma EqualsNotSymmetric(a: RoleRef, b: RoleRef)
    requires a != b
    ensures EqualsPolicy(RequireRolePolicy([a, a]), Some(RequireRolePolicy([a, b])))
    ensures !EqualsPolicy(RequireRolePolicy([a, b]), Some(RequireRolePolicy([a, a])))
  {
    assert RequireRolePolicy([a, b]).RolesRequired()[1] == b;
  }

  /** The corrected equality: the two policies require the same SET of
      roles, whatever the order and however often a role is repeated.
      Unlike `Equals`, it is symmetric, as `object.Equals` must be. */
  predicate SameRoles(p: RequireRolePolicy, q: RequireRolePolicy)
  {
    Elements(p.RolesRequired()) == Elements(q.RolesRequired())
  }

  /** Between duplicate-free lists of equal length, one-way containment
      already means equal sets. */
  lemma ContainmentIsSetEquality(a: seq<RoleRef>, b: seq<RoleRef>)
    requires Distinct(a) && Distinct(b) && |a| == |b|
    requires forall i :: 0 <= i < |a| ==> a[i] in b
    ensures Elements(a) == Elements(b)
  {
    assert Elements(a) <= Elements(b);
    DistinctCardinality(a);
    DistinctCardinality(b);
    assert |Elements(b) - Elements(a)| == |Elements(b)| - |Elements(a)| == 0;
  }

  /** `SameRoles` is an equivalence; it holds whenever `Equals` holds in
      both directions; and it coincides with `Equals` whenever neither list
      has a duplicate. */
  lemma SameRolesMatchesEquals(p: RequireRolePolicy, q: RequireRolePolicy, s: RequireRolePolicy)
    ensures SameRoles(p, p)
    ensures SameRoles(p, q) ==> SameRoles(q, p)
    ensures SameRoles(p, q) && SameRoles(q, s) ==> SameRoles(p, s)
    ensures EqualsPolicy(p, Some(q)) && EqualsPolicy(q, Some(p)) ==> SameRoles(p, q)
    ensures Distinct(p.RolesRequired()) && Distinct(q.RolesRequired()) ==>
              (SameRoles(p, q) <==> EqualsPolicy(p, Some(q)))
  {
    var a, b := p.RolesRequired(), q.RolesRequired();
    if Distinct(a) && Distinct(b) {
      if EqualsPolicy(p, Some(q)) {
        ContainmentIsSetEquality(a, b);
      }
      if SameRoles(p, q) {
        DistinctCardinality(a);
        DistinctCardinality(b);
        forall i | 0 <= i < |a| ensures a[i] in b {
          assert a[i] in Elements(a);
        }
      }
    }
  }

  /** Where the corrected equality and `Equals` agree and disagree, for
      two different roles a and b: both call [a, a, b] and [a, b, b]
      equal; `SameRoles` rejects [a, a] against [a, b] in both directions,
      where `Equals` accepts one; and `SameRoles` accepts [a] against
      [a, a], which the length check of `Equals` rejects. */
  lemma SameRolesExamples(a: RoleRef, b: RoleRef)
    requires a != b
    ensures var p, q := RequireRolePolicy([a, a, b]), RequireRolePolicy([a, b, b]);
            SameRoles(p, q) && EqualsPolicy(p, Some(q)) && EqualsPolicy(q, Some(p))
    ensures !SameRoles(RequireRolePolicy([a, a]), RequireRolePolicy([a, b]))
    ensures !SameRoles(RequireRolePolicy([a, b]), RequireRolePolicy([a, a]))
    ensures EqualsPolicy(RequireRolePolicy([a, a]), Some(RequireRolePolicy([a, b])))
    ensures SameRoles(RequireRolePolicy([a]), RequireRolePolicy([a, a]))
    ensures !EqualsPolicy(RequireRolePolicy([a]), Some(RequireRolePolicy([a, a])))
  {
    assert Elements([a, a, b]) == {a, b} == Elements([a, b, b]);
    assert b in Elements([a, b]);
    assert Elements([a]) == {a} == Elements([a, a]);
  }
}
