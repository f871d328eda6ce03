/**
 * The auto-role list of one server: an ordered list of role ids that the
 * add/remove command keeps free of duplicates.
 */
module AutoRoles {

  /** No role id occurs twice. */
  predicate NoDup(roles: seq<int>) {
    forall a, b :: 0 <= a < b < |roles| ==> roles[a] != roles[b]
  }

  /** `append` guarded by `not in`: the id goes at the end, and only if absent. */
  function AddRole(roles: seq<int>, id: int): (r: seq<int>)
    ensures id in r
    ensures forall x :: x in r <==> x in roles || x == id
    ensures |r| == |roles| + (if id in roles then 0 else 1)
    ensures r[..|roles|] == roles
    ensures NoDup(roles) ==> NoDup(r)
  {
    if id in roles then roles else roles + [id]
  }

  /**
   * `list.remove` guarded by `in`: deletes the first occurrence of the id and
   * keeps every other element in its original order.
   */
  function RemoveRole(roles: seq<int>, id: int): (r: seq<int>)
    ensures |r| == |roles| - (if id in roles then 1 else 0)
    ensures forall x :: x in r ==> x in roles
    ensures forall x :: x != id && x in roles ==> x in r
    ensures id !in roles ==> r == roles
    ensures NoDup(roles) ==> NoDup(r) && id !in r
  {
    if roles == [] then []
    else if roles[0] == id then roles[1..]
    else
      var rest := RemoveRole(roles[1..], id);
      NoDupCons(roles[0], roles[1..]);
      NoDupCons(roles[0], rest);
      assert roles == [roles[0]] + roles[1..];
      [roles[0]] + rest
  }

  /** Position of the first occurrence of a present id. */
  function IndexOf(s: seq<int>, x: int): (k: nat)
    requires x in s
    ensures k < |s| && s[k] == x && x !in s[..k]
  {
    if s[0] == x then 0
    else
      var k := 1 + IndexOf(s[1..], x);
      assert s[..k] == [s[0]] + s[1..][..k - 1];
      k
  }

  /** Removal deletes exactly one position, the first one holding the id. */
  lemma {:induction false} RemoveRoleShape(roles: seq<int>, id: int)
    requires id in roles
    ensures RemoveRole(roles, id) == roles[..IndexOf(roles, id)] + roles[IndexOf(roles, id) + 1..]
  {
    if roles[0] != id {
      var rest := roles[1..];
      var k := IndexOf(rest, id);
      RemoveRoleShape(rest, id);
      assert RemoveRole(roles, id) == [roles[0]] + RemoveRole(rest, id);
      assert IndexOf(roles, id) == k + 1;
      ConsSlices(roles, k);
    }
  }

  lemma ConsSlices(s: seq<int>, k: nat)
    requires k + 1 < |s|
    ensures [s[0]] + (s[1..][..k] + s[1..][k + 1..]) == s[..k + 1] + s[k + 2..]
  {
    assert s[..k + 1] == [s[0]] + s[1..][..k];
    assert s[k + 2..] == s[1..][k + 1..];
  }

  lemma NoDupCons(x: int, s: seq<int>)
    ensures NoDup([x] + s) <==> x !in s && NoDup(s)
  {
    if x !in s && NoDup(s) {
      forall a, b | 0 <= a < b < |[x] + s| ensures ([x] + s)[a] != ([x] + s)[b] {
        if a > 0 { assert ([x] + s)[a] == s[a - 1]; }
      }
    }
    if NoDup([x] + s) {
      forall b | 0 <= b < |s| ensures s[b] != x {
        assert ([x] + s)[0] != ([x] + s)[b + 1];
      }
      forall a, b | 0 <= a < b < |s| ensures s[a] != s[b] {
        assert ([x] + s)[a + 1] != ([x] + s)[b + 1];
      }
    }
  }

  /** Adding an absent role and then removing it gives back the list. */
  lemma AddThenRemove(roles: seq<int>, id: int)
    requires id !in roles
    ensures RemoveRole(AddRole(roles, id), id) == roles
  {
    RemoveAbsentAppended(roles, id);
  }

  lemma {:induction false} RemoveAbsentAppended(roles: seq<int>, id: int)
    requires id !in roles
    ensures RemoveRole(roles + [id], id) == roles
  {
    if roles != [] {
      assert (roles + [id])[1..] == roles[1..] + [id];
      RemoveAbsentAppended(roles[1..], id);
    }
  }

  /** Removing a present role and adding it back keeps the same ids (moved to the end). */
  lemma RemoveThenAdd(roles: seq<int>, id: int)
    requires NoDup(roles) && id in roles
    ensures AddRole(RemoveRole(roles, id), id) == RemoveRole(roles, id) + [id]
    ensures multiset(AddRole(RemoveRole(roles, id), id)) == multiset(roles)
  {
    var k := IndexOf(roles, id);
    var r := RemoveRole(roles, id);
    assert id !in r;
    RemoveRoleShape(roles, id);
    var before, after := roles[..k], roles[k + 1..];
    assert r == before + after;
    assert roles == before + [id] + after;
    MoveToEnd(before, id, after);
  }

  lemma MoveToEnd(a: seq<int>, x: int, b: seq<int>)
    ensures multiset(a + [x] + b) == multiset(a + b + [x])
  {
    calc {
      multiset(a + [x] + b);
      multiset(a) + multiset([x]) + multiset(b);
      multiset(a + b + [x]);
    }
  }
}
