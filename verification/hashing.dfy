/** `RequireRolePolicy.GetHashCode`: an unchecked 32-bit left fold over the
    required roles, `hash := hash * 23 + roleHash`, starting from 17. */
module Hashing {
  import opened Wrappers
  import opened Roles
  import opened Policy
  import opened Equality

  const TwoTo32: int := 0x1_0000_0000
  const TwoTo31: int := 0x8000_0000

  /** A C# `int`. */
  type Int32 = x: int | -0x8000_0000 <= x < 0x8000_0000

  const HashSeed: Int32 := 17
  const HashFactor: int := 23

  /** What `unchecked` arithmetic keeps of an exact integer: the `int` that
      agrees with it modulo 2^32. */
  function Wrap32(x: int): (r: Int32)
    ensures (x - r) % TwoTo32 == 0
    ensures -TwoTo31 <= x < TwoTo31 ==> r == x
  {
    var m := x % TwoTo32;
    if m >= TwoTo31 then m - TwoTo32 else m
  }

  /** `(role != null) ? role.GetHashCode() : 0`; `hashOf` is the roles' own
      `GetHashCode`, which this model does not know. */
  function RoleHash(r: RoleRef, hashOf: Role -> Int32): Int32
  {
    match r
    case NullRef => 0
    case Ref(role) => hashOf(role)
  }

  /** One step of the aggregate: `current * 23 + roleHash`, unchecked. */
  function HashStep(current: Int32, r: RoleRef, hashOf: Role -> Int32): Int32
  {
    Wrap32(current * HashFactor + RoleHash(r, hashOf))
  }

  /** LINQ `Aggregate(seed, step)`: the roles combined front to back. */
  function Aggregate(seed: Int32, roles: seq<RoleRef>, hashOf: Role -> Int32): Int32
    decreases |roles|
  {
    if |roles| == 0 then seed
    else Aggregate(HashStep(seed, roles[0], hashOf), roles[1..], hashOf)
  }

  /** `GetHashCode()` of a policy: the same fold on unbounded integers,
      seeded with 17, reduced to 32 bits. */
  function GetHashCode(p: RequireRolePolicy, hashOf: Role -> Int32): (h: Int32)
    ensures h == Wrap32(ExactHash(HashSeed, p.RolesRequired(), hashOf))
  {
    AggregateIsWrappedExactHash(HashSeed, p.RolesRequired(), hashOf);
    Aggregate(HashSeed, p.RolesRequired(), hashOf)
  }

  /** The same fold on unbounded integers, combining from the back: the
      last role is added last. */
  function ExactHash(seed: int, roles: seq<RoleRef>, hashOf: Role -> Int32): int
  {
    if |roles| == 0 then seed
    else ExactHash(seed, roles[..|roles| - 1], hashOf) * HashFactor + RoleHash(roles[|roles| - 1], hashOf)
  }

  /** Adding a multiple of 2^32 does not change the wrapped value. */
  lemma WrapShift(x: int, k: int)
    ensures Wrap32(x + k * TwoTo32) == Wrap32(x)
  {
  }

  /** Wrapping before a step or only at the end gives the same value. */
  lemma WrapStep(x: int, r: RoleRef, hashOf: Role -> Int32)
    ensures HashStep(Wrap32(x), r, hashOf) == Wrap32(x * HashFactor + RoleHash(r, hashOf))
  {
    var w := Wrap32(x);
    var k := (w - x) / TwoTo32;
    assert w == x + k * TwoTo32;
    assert w * HashFactor + RoleHash(r, hashOf)
        == (x * HashFactor + RoleHash(r, hashOf)) + (k * HashFactor) * TwoTo32;
    WrapShift(x * HashFactor + RoleHash(r, hashOf), k * HashFactor);
  }

  /** Folding one more role onto the end takes one more step: the hash is a
      LEFT fold. */
  lemma {:induction false} AggregateSnoc(seed: Int32, roles: seq<RoleRef>, r: RoleRef, hashOf: Role -> Int32)
    ensures Aggregate(seed, roles + [r], hashOf) == HashStep(Aggregate(seed, roles, hashOf), r, hashOf)
    decreases |roles|
  {
    if |roles| > 0 {
      assert (roles + [r])[1..] == roles[1..] + [r];
      AggregateSnoc(HashStep(seed, roles[0], hashOf), roles[1..], r, hashOf);
    }
  }

  /** The unchecked fold, wrapping at every step, equals the same fold on
      unbounded integers wrapped once at the end. */
  lemma {:induction false} AggregateIsWrappedExactHash(seed: Int32, roles: seq<RoleRef>, hashOf: Role -> Int32)
    ensures Aggregate(seed, roles, hashOf) == Wrap32(ExactHash(seed, roles, hashOf))
    decreases |roles|
  {
    if |roles| > 0 {
      var init, last := roles[..|roles| - 1], roles[|roles| - 1];
      assert roles == init + [last];
      AggregateIsWrappedExactHash(seed, init, hashOf);
      AggregateSnoc(seed, init, last, hashOf);
      WrapStep(ExactHash(seed, init, hashOf), last, hashOf);
    }
  }

  /** The hash depends on order, so two policies that are `Equals` in both
      directions can hash differently: [a, b] hashes to 9018 and [b, a] to
      9040 when a hashes to 1 and b to 2. */
  lemma EqualPoliciesHashDifferently()
    ensures var a, b := Ref(Role(1, "a")), Ref(Role(2, "b"));
            var hashOf := (role: Role) => if role.identity == 1 then 1 else 2;
            var p, q := RequireRolePolicy([a, b]), RequireRolePolicy([b, a]);
            && EqualsPolicy(p, Some(q)) && EqualsPolicy(q, Some(p))
            && GetHashCode(p, hashOf) == 9018 && GetHashCode(q, hashOf) == 9040
  {
    var a, b := Ref(Role(1, "a")), Ref(Role(2, "b"));
    var hashOf := (role: Role) => if role.identity == 1 then 1 else 2;
    var p, q := RequireRolePolicy([a, b]), RequireRolePolicy([b, a]);
    assert q.RolesRequired()[1] == a;
    assert HashStep(HashSeed, a, hashOf) == 392;
    assert [a, b][1..] == [b];
    assert GetHashCode(p, hashOf) == Aggregate(392, [b], hashOf) == 9018;
    assert HashStep(HashSeed, b, hashOf) == 393;
    assert [b, a][1..] == [a];
    assert GetHashCode(q, hashOf) == Aggregate(393, [a], hashOf) == 9040;
  }

  /** The hashes of the DISTINCT roles of `roles`, summed on unbounded
      integers: a role that occurs again later in the list is skipped. */
  function DistinctHashSum(roles: seq<RoleRef>, hashOf: Role -> Int32): int
  {
    if |roles| == 0 then 0
    else (if roles[0] in roles[1..] then 0 else RoleHash(roles[0], hashOf))
         + DistinctHashSum(roles[1..], hashOf)
  }

  /** The evidently intended hash: 17 plus the hashes of the distinct
      roles, reduced to 32 bits, so that it depends on the set of roles
      only. */
  function OrderFreeHash(p: RequireRolePolicy, hashOf: Role -> Int32): Int32
  {
    Wrap32(HashSeed + DistinctHashSum(p.RolesRequired(), hashOf))
  }

  /** The sum of the hashes of the roles in a set. */
  ghost function SetHashSum(s: set<RoleRef>, hashOf: Role -> Int32): int
    decreases s
  {
    if s == {} then 0
    else
      var x :| x in s;
      RoleHash(x, hashOf) + SetHashSum(s - {x}, hashOf)
  }

  /** Any member of the set may be taken out first. */
  lemma {:induction false} SetHashSumRemove(s: set<RoleRef>, y: RoleRef, hashOf: Role -> Int32)
    requires y in s
    ensures SetHashSum(s, hashOf) == RoleHash(y, hashOf) + SetHashSum(s - {y}, hashOf)
    decreases |s|
  {
    var x :| x in s && SetHashSum(s, hashOf) == RoleHash(x, hashOf) + SetHashSum(s - {x}, hashOf);
    if x != y {
      assert s - {x} - {y} == s - {y} - {x};
      SetHashSumRemove(s - {x}, y, hashOf);
      SetHashSumRemove(s - {y}, x, hashOf);
    }
  }

  /** Summing over the distinct roles of a list is summing over its set. */
  lemma {:induction false} DistinctHashSumIsSetSum(roles: seq<RoleRef>, hashOf: Role -> Int32)
    ensures DistinctHashSum(roles, hashOf) == SetHashSum(Elements(roles), hashOf)
  {
    if |roles| == 0 {
      assert Elements(roles) == {};
    } else {
      var x, rest := roles[0], roles[1..];
      DistinctHashSumIsSetSum(rest, hashOf);
      assert roles == [x] + rest;
      assert Elements(roles) == Elements(rest) + {x};
      if x in rest {
        assert Elements(roles) == Elements(rest);
      } else {
        assert Elements(roles) - {x} == Elements(rest);
        SetHashSumRemove(Elements(roles), x, hashOf);
      }
    }
  }

  /** Policies that require the same set of roles get the same
      `OrderFreeHash`, so the corrected hash agrees with the corrected
      equality `SameRoles`. */
  lemma OrderFreeHashRespectsSameRoles(p: RequireRolePolicy, q: RequireRolePolicy, hashOf: Role -> Int32)
    requires SameRoles(p, q)
    ensures OrderFreeHash(p, hashOf) == OrderFreeHash(q, hashOf)
  {
    DistinctHashSumIsSetSum(p.RolesRequired(), hashOf);
    DistinctHashSumIsSetSum(q.RolesRequired(), hashOf);
  }
}
