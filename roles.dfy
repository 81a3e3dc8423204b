/** A permission-set utility: whether a permission is in a list, whether all
    or one of several permissions are in a list, and the merge of several
    permission lists into one duplicate-free list in order of first
    appearance. Every operation is a value-level computation; the lists the
    caller passes in are never changed. */
module Roles {

  /** A permission is a string token; the empty string means "no permission"
      and is never granted. Comparison is exact, case-sensitive equality. */
  type Permission = string

  /** No permission occurs twice in `s`. */
  predicate NoDuplicates(s: seq<Permission>)
  {
    forall i, j :: 0 <= i < j < |s| ==> s[i] != s[j]
  }

  /** No element of `s` is the empty permission. */
  predicate NoEmpty(s: seq<Permission>)
  {
    forall k :: 0 <= k < |s| ==> s[k] != ""
  }

  // ---------------------------------------------------------------------------
  // Membership of a single permission
  // ---------------------------------------------------------------------------

  /** `list.indexOf(x)`: the index of the first element of `list` strictly
      equal to `x`, or -1 when there is none. */
  function IndexOf(list: seq<Permission>, x: Permission): (k: int)
    ensures -1 <= k < |list|
    ensures k == -1 <==> x !in list
    ensures 0 <= k ==> list[k] == x && x !in list[..k]
  {
    if |list| == 0 then -1
    else if list[0] == x then 0
    else
      var k := IndexOf(list[1..], x);
      if k == -1 then -1
      else
        assert list[..k + 1] == [list[0]] + list[1..][..k];
        k + 1
  }

  /** `isPermissionInList`: a permission is in the list when it is not empty
      and some element of the list is exactly equal to it. */
  function IsPermissionInList(permission: Permission, list: seq<Permission>): (r: bool)
    ensures r <==> permission != "" && permission in list
  {
    |permission| > 0 && IndexOf(list, permission) != -1
  }

  // ---------------------------------------------------------------------------
  // "All of" and "one of"
  // ---------------------------------------------------------------------------

  /** What `isPermissionsInList` decides: there is at least one permission to
      check, and every one of them is in `list`. The empty request is refused
      rather than vacuously granted. */
  predicate AllInList(permissions: seq<Permission>, list: seq<Permission>)
  {
    |permissions| > 0 &&
    forall i :: 0 <= i < |permissions| ==> IsPermissionInList(permissions[i], list)
  }

  /** What `isPermissionsOneOf` decides: some permission of the request is in
      `list`. */
  predicate OneInList(permissions: seq<Permission>, list: seq<Permission>)
  {
    exists i :: 0 <= i < |permissions| && IsPermissionInList(permissions[i], list)
  }

  /** `isPermissionsInList`: a flag that starts true for a non-empty request
      and is cleared, ending the scan, at the first permission not in the list. */
  method IsPermissionsInList(permissions: seq<Permission>, list: seq<Permission>)
    returns (result: bool)
    ensures result == AllInList(permissions, list)
  {
    result := false;
    if |permissions| > 0 {
      result := true;
      for i := 0 to |permissions|
        invariant result
        invariant forall k :: 0 <= k < i ==> IsPermissionInList(permissions[k], list)
      {
        if !IsPermissionInList(permissions[i], list) {
          result := false;
          break;
        }
      }
    }
  }

  /** `isPermissionsOneOf`: a flag that starts false and is set, ending the
      scan, at the first permission found in the list. */
  method IsPermissionsOneOf(permissions: seq<Permission>, list: seq<Permission>)
    returns (result: bool)
    ensures result == OneInList(permissions, list)
  {
    result := false;
    if |permissions| > 0 {
      for i := 0 to |permissions|
        invariant !result
        invariant forall k :: 0 <= k < i ==> !IsPermissionInList(permissions[k], list)
      {
        if IsPermissionInList(permissions[i], list) {
          result := true;
          break;
        }
      }
    }
  }

  /** "All of" means: a non-empty request whose every element is a non-empty
      permission of `list`. */
  lemma AllInListIsInclusion(permissions: seq<Permission>, list: seq<Permission>)
    ensures AllInList(permissions, list) <==>
            |permissions| > 0 && forall p :: p in permissions ==> p != "" && p in list
  {
    if |permissions| > 0 && forall p :: p in permissions ==> p != "" && p in list {
      forall i | 0 <= i < |permissions|
        ensures IsPermissionInList(permissions[i], list)
      {
        assert permissions[i] in permissions;
      }
    }
  }

  /** "One of" means: the request and `list` share a non-empty permission. */
  lemma OneInListIsOverlap(permissions: seq<Permission>, list: seq<Permission>)
    ensures OneInList(permissions, list) <==>
            exists p :: p in permissions && p in list && p != ""
  {
    if exists p :: p in permissions && p in list && p != "" {
      var p :| p in permissions && p in list && p != "";
      var i :| 0 <= i < |permissions| && permissions[i] == p;
      assert IsPermissionInList(permissions[i], list);
    }
  }

  /** A request granted in full is granted in part. */
  lemma AllInListImpliesOneInList(permissions: seq<Permission>, list: seq<Permission>)
    requires AllInList(permissions, list)
    ensures OneInList(permissions, list)
  {
    assert IsPermissionInList(permissions[0], list);
  }

  /** The empty permission is never granted, even by a list holding it, and an
      empty request is refused by both the "all of" and the "one of" check. */
  lemma EmptyNeverGranted(list: seq<Permission>)
    ensures !IsPermissionInList("", list)
    ensures !AllInList([], list) && !AllInList([""], list)
    ensures !OneInList([], list) && !OneInList([""], list)
  {
    assert [""][0] == "";
  }

  // ---------------------------------------------------------------------------
  // Merging
  // ---------------------------------------------------------------------------

  /** The concatenation of all lists, in argument order. */
  function Flatten(lists: seq<seq<Permission>>): seq<Permission>
  {
    if |lists| == 0 then [] else Flatten(lists[..|lists| - 1]) + lists[|lists| - 1]
  }

  /** A permission is in the concatenation exactly when it is in one of the lists. */
  lemma {:induction false} FlattenMembership(lists: seq<seq<Permission>>)
    ensures forall p :: p in Flatten(lists) <==> exists i :: 0 <= i < |lists| && p in lists[i]
  {
    if |lists| > 0 {
      var init := lists[..|lists| - 1];
      FlattenMembership(init);
      assert forall i :: 0 <= i < |init| ==> init[i] == lists[i];
    }
  }

  /** The non-empty permissions of `s`, each taken at its first occurrence:
      what a left-to-right scan of `s` appends to an initially empty result
      when the element is non-empty and not yet in the result. */
  function FirstOccurrences(s: seq<Permission>): seq<Permission>
  {
    if |s| == 0 then []
    else
      var r := FirstOccurrences(s[..|s| - 1]);
      var p := s[|s| - 1];
      if p != "" && p !in r then r + [p] else r
  }

  /** The scan keeps no duplicates and no empty permissions, and holds exactly
      the non-empty elements of its input. */
  lemma {:induction false} FirstOccurrencesContents(s: seq<Permission>)
    ensures NoDuplicates(FirstOccurrences(s)) && NoEmpty(FirstOccurrences(s))
    ensures forall p :: p in FirstOccurrences(s) <==> p != "" && p in s
  {
    if |s| > 0 {
      var init := s[..|s| - 1];
      FirstOccurrencesContents(init);
      assert s == init + [s[|s| - 1]];
    }
  }

  /** What `mergePermissions(...lists)` returns. */
  function Merged(lists: seq<seq<Permission>>): seq<Permission>
  {
    FirstOccurrences(Flatten(lists))
  }

  /** The merge has no duplicates and no empty permissions, and holds exactly
      the non-empty permissions of the input lists. */
  lemma MergedContents(lists: seq<seq<Permission>>)
    ensures NoDuplicates(Merged(lists)) && NoEmpty(Merged(lists))
    ensures forall p :: p in Merged(lists) <==> p != "" && exists i :: 0 <= i < |lists| && p in lists[i]
  {
    FlattenMembership(lists);
    FirstOccurrencesContents(Flatten(lists));
  }

  /** `mergePermissions`: nested scans over the lists and their elements,
      appending each non-empty permission that `indexOf` does not find in the
      result built so far. The ghost `done` is the input scanned so far. */
  method MergePermissions(lists: seq<seq<Permission>>) returns (permissions: seq<Permission>)
    ensures permissions == Merged(lists)
  {
    permissions := [];
    ghost var done: seq<Permission> := [];
    for i := 0 to |lists|
      invariant done == Flatten(lists[..i])
      invariant permissions == FirstOccurrences(done)
    {
      var list := lists[i];
      ghost var before := done;
      for j := 0 to |list|
        invariant done == before + list[..j]
        invariant permissions == FirstOccurrences(done)
      {
        var permission := list[j];
        if |permission| > 0 && IndexOf(permissions, permission) == -1 {
          permissions := permissions + [permission];
        }
        assert permissions == FirstOccurrences(done + [permission]) by {
          FirstOccurrencesAppend(done, permission);
        }
        done := done + [permission];
        assert done == before + list[..j + 1] by {
          assert list[..j + 1] == list[..j] + [permission];
        }
      }
      assert done == Flatten(lists[..i + 1]) by {
        assert list[..|list|] == list;
        FlattenAppend(lists, i);
      }
    }
    assert lists[..|lists|] == lists;
  }

  /** One more list of input extends the concatenation by that list. */
  lemma FlattenAppend(lists: seq<seq<Permission>>, i: nat)
    requires i < |lists|
    ensures Flatten(lists[..i + 1]) == Flatten(lists[..i]) + lists[i]
  {
    assert lists[..i + 1][..i] == lists[..i];
  }

  /** One more element of input: the scan appends it exactly when it is
      non-empty and not yet in the result. */
  lemma FirstOccurrencesAppend(seen: seq<Permission>, p: Permission)
    ensures FirstOccurrences(seen + [p]) ==
            if p != "" && p !in FirstOccurrences(seen) then FirstOccurrences(seen) + [p]
            else FirstOccurrences(seen)
  {
    assert (seen + [p])[..|seen|] == seen;
  }

  /** The position of `x` in `s` is unchanged by appending to `s`. */
  lemma {:induction false} IndexOfAppend(s: seq<Permission>, p: Permission, x: Permission)
    requires x in s
    ensures IndexOf(s + [p], x) == IndexOf(s, x)
  {
    if s[0] != x {
      assert (s + [p])[1..] == s[1..] + [p];
      IndexOfAppend(s[1..], p, x);
    }
  }

  /** `t` lists its elements in strictly increasing order of their first
      appearance in `s`. */
  predicate InAppearanceOrder(t: seq<Permission>, s: seq<Permission>)
  {
    forall i, j :: 0 <= i < j < |t| ==> IndexOf(s, t[i]) < IndexOf(s, t[j])
  }

  /** The merged permissions come in the order in which they first appear
      in the input. */
  lemma {:induction false} FirstOccurrencesInAppearanceOrder(s: seq<Permission>)
    ensures InAppearanceOrder(FirstOccurrences(s), s)
  {
    if |s| > 0 {
      var s', p := s[..|s| - 1], s[|s| - 1];
      assert s == s' + [p];
      var r' := FirstOccurrences(s');
      FirstOccurrencesContents(s');
      FirstOccurrencesInAppearanceOrder(s');
      forall k | 0 <= k < |r'|
        ensures IndexOf(s, r'[k]) == IndexOf(s', r'[k])
      {
        assert r'[k] in r';
        IndexOfAppend(s', p, r'[k]);
      }
      if p != "" && p !in r' {
        assert p !in s';
        assert IndexOf(s, p) == |s'|;
      }
    }
  }

  /** The merge lists its permissions in the order in which they first appear
      in the concatenated input. */
  lemma MergedInAppearanceOrder(lists: seq<seq<Permission>>)
    ensures InAppearanceOrder(Merged(lists), Flatten(lists))
  {
    FirstOccurrencesInAppearanceOrder(Flatten(lists));
  }

  /** Two sequences that hold the same permissions, both in strictly increasing
      order of first appearance in `s`, start with the same permission. */
  lemma SameHeads(s: seq<Permission>, t: seq<Permission>, u: seq<Permission>)
    requires InAppearanceOrder(t, s) && InAppearanceOrder(u, s)
    requires forall p :: p in t <==> p in u
    requires |t| > 0 && |u| > 0
    ensures t[0] == u[0]
  {
    assert u[0] in t;
    var m :| 0 <= m < |t| && t[m] == u[0];
    assert t[0] in u;
    assert forall a :: 0 < a < |t| ==> IndexOf(s, t[0]) < IndexOf(s, t[a]);
    assert forall b :: 0 < b < |u| ==> IndexOf(s, u[0]) < IndexOf(s, u[b]);
    assert m == 0;
  }

  /** A permission after the head of `t` is, in `u`, after the same head. */
  lemma TailMember(s: seq<Permission>, t: seq<Permission>, u: seq<Permission>, p: Permission)
    requires InAppearanceOrder(t, s)
    requires forall q :: q in t ==> q in u
    requires |t| > 0 && |u| > 0 && t[0] == u[0]
    requires p in t[1..]
    ensures p in u[1..]
  {
    var a :| 1 <= a < |t| && t[a] == p;
    assert IndexOf(s, t[0]) < IndexOf(s, t[a]);
    assert p in t;
    var b :| 0 <= b < |u| && u[b] == p;
    assert u[1..][b - 1] == p;
  }

  /** Two sequences that hold the same permissions, both in strictly increasing
      order of first appearance in `s`, are equal. */
  lemma {:induction false} AppearanceOrderIsUnique(s: seq<Permission>, t: seq<Permission>, u: seq<Permission>)
    requires InAppearanceOrder(t, s) && InAppearanceOrder(u, s)
    requires forall p :: p in t <==> p in u
    ensures t == u
    decreases |t|
  {
    assert |t| > 0 ==> t[0] in u;
    assert |u| > 0 ==> u[0] in t;
    if |t| > 0 {
      SameHeads(s, t, u);
      forall p
        ensures p in t[1..] <==> p in u[1..]
      {
        if p in t[1..] {
          TailMember(s, t, u, p);
        }
        if p in u[1..] {
          TailMember(s, u, t, p);
        }
      }
      AppearanceOrderIsUnique(s, t[1..], u[1..]);
    }
  }

  /** The first-occurrence scan is the only duplicate-free arrangement of the
      non-empty permissions of `s` in their order of first appearance. */
  lemma FirstOccurrencesCharacterized(s: seq<Permission>, t: seq<Permission>)
    requires forall p :: p in t <==> p != "" && p in s
    requires InAppearanceOrder(t, s)
    ensures t == FirstOccurrences(s)
  {
    FirstOccurrencesContents(s);
    FirstOccurrencesInAppearanceOrder(s);
    AppearanceOrderIsUnique(s, t, FirstOccurrences(s));
  }

  /** The merge is the only duplicate-free list of the non-empty input
      permissions in order of first appearance across the lists. */
  lemma MergedCharacterized(lists: seq<seq<Permission>>, t: seq<Permission>)
    requires forall p :: p in t <==> p != "" && exists i :: 0 <= i < |lists| && p in lists[i]
    requires InAppearanceOrder(t, Flatten(lists))
    ensures t == Merged(lists)
  {
    FlattenMembership(lists);
    FirstOccurrencesCharacterized(Flatten(lists), t);
  }

  /** Scanning a duplicate-free list of non-empty permissions gives it back. */
  lemma {:induction false} FirstOccurrencesOfDistinct(t: seq<Permission>)
    requires NoDuplicates(t) && NoEmpty(t)
    ensures FirstOccurrences(t) == t
  {
    if |t| > 0 {
      var t' := t[..|t| - 1];
      FirstOccurrencesOfDistinct(t');
      assert t == t' + [t[|t| - 1]];
    }
  }

  /** Merging a merge result again changes nothing. */
  lemma MergeIdempotent(lists: seq<seq<Permission>>)
    ensures Merged([Merged(lists)]) == Merged(lists)
  {
    var r := Merged(lists);
    assert [r][..0] == [];
    assert Flatten([r]) == r;
    MergedContents(lists);
    FirstOccurrencesOfDistinct(r);
  }

  /** Scanning more input only appends to what the scan produced so far. */
  lemma {:induction false} FirstOccurrencesExtends(s: seq<Permission>, t: seq<Permission>)
    ensures FirstOccurrences(s) <= FirstOccurrences(s + t)
    decreases |t|
  {
    if |t| == 0 {
      assert s + t == s;
    } else {
      var t' := t[..|t| - 1];
      FirstOccurrencesExtends(s, t');
      assert (s + t)[..|s + t| - 1] == s + t';
    }
  }

  /** Merging one more list only appends permissions to the earlier merge. */
  lemma MergeExtends(lists: seq<seq<Permission>>, list: seq<Permission>)
    ensures Merged(lists) <= Merged(lists + [list])
  {
    assert (lists + [list])[..|lists|] == lists;
    FirstOccurrencesExtends(Flatten(lists), list);
  }

  /** A permission is granted by the merged list exactly when one of the merged
      lists grants it. */
  lemma GrantedByMergeIffGrantedByOne(lists: seq<seq<Permission>>, permission: Permission)
    ensures IsPermissionInList(permission, Merged(lists)) <==>
            exists i :: 0 <= i < |lists| && IsPermissionInList(permission, lists[i])
  {
    MergedContents(lists);
  }
}
