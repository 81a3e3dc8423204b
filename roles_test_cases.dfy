/** The expectations of the module's test suite, stated over the
    specification functions; the methods of `Roles` are proved equal to
    these, so the expectations hold of them too. */
module RolesTestCases {
  import opened Roles

  /** Exact, case-sensitive membership; the empty permission is never in a list. */
  lemma IsPermissionInListCases()
    ensures IsPermissionInList("test", ["test"])
    ensures !IsPermissionInList("test", ["testing"])
    ensures !IsPermissionInList("", [""])
    ensures !IsPermissionInList("test", ["Test", "TEST"])
  {
  }

  /** "All of": granted only when every requested permission is present. */
  lemma IsPermissionsInListCases()
    ensures AllInList(["test"], ["test"])
    ensures !AllInList(["test", "quit"], ["test"])
    ensures !AllInList([""], [""])
    ensures !AllInList([], [""])
    ensures !AllInList(["test"], ["Test", "TEST"])
  {
    assert ["test", "quit"][1] == "quit";
    assert [""][0] == "";
    assert ["test"][0] == "test";
  }

  /** "One of": granted when some requested permission is present. */
  lemma IsPermissionsOneOfCases()
    ensures OneInList(["test"], ["test", "quit"])
    ensures !OneInList(["quit"], ["test"])
    ensures !OneInList([""], [""])
    ensures !OneInList([], [""])
    ensures !OneInList(["test"], ["Test", "TEST"])
  {
    assert IsPermissionInList(["test"][0], ["test", "quit"]);
  }

  /** Merging singleton lists of distinct permissions keeps argument order. */
  lemma MergeSingletonsKeepsOrder(a: Permission, b: Permission, c: Permission)
    requires a != "" && b != "" && c != ""
    requires a != b && a != c && b != c
    ensures Merged([[a], [b], [c]]) == [a, b, c]
  {
    var lists := [[a], [b], [c]];
    assert Flatten(lists) == [a, b, c] by {
      FlattenAppend(lists, 0);
      FlattenAppend(lists, 1);
      FlattenAppend(lists, 2);
      assert lists[..3] == lists;
    }
    FirstOccurrencesAppend([], a);
    FirstOccurrencesAppend([a], b);
    FirstOccurrencesAppend([a, b], c);
    assert [a] + [b] == [a, b] && [a, b] + [c] == [a, b, c];
  }

  /** Merging the same one-permission list three times gives it once. */
  lemma MergeRepeatedSingleton(p: Permission)
    requires p != ""
    ensures Merged([[p], [p], [p]]) == [p]
  {
    var lists := [[p], [p], [p]];
    assert Flatten(lists) == [p, p, p] by {
      FlattenAppend(lists, 0);
      FlattenAppend(lists, 1);
      FlattenAppend(lists, 2);
      assert lists[..3] == lists;
    }
    FirstOccurrencesAppend([], p);
    FirstOccurrencesAppend([p], p);
    FirstOccurrencesAppend([p, p], p);
    assert [p] + [p] == [p, p] && [p, p] + [p] == [p, p, p];
  }

  /** Merging a singleton with a pair of distinct permissions keeps all three. */
  lemma MergeDistinctKeepsAll(a: Permission, b: Permission, c: Permission)
    requires a != "" && b != "" && c != ""
    requires a != b && a != c && b != c
    ensures Merged([[a], [b, c]]) == [a, b, c]
  {
    var lists := [[a], [b, c]];
    assert Flatten(lists) == [a, b, c] by {
      FlattenAppend(lists, 0);
      FlattenAppend(lists, 1);
      assert lists[..2] == lists;
    }
    FirstOccurrencesAppend([], a);
    FirstOccurrencesAppend([a], b);
    FirstOccurrencesAppend([a, b], c);
    assert [a] + [b] == [a, b] && [a, b] + [c] == [a, b, c];
  }

  /** The merge expectations of the test suite: order kept, repeats dropped,
      empty permissions dropped, case not folded. */
  lemma MergePermissionsCases()
    ensures Merged([["quit"], ["test"], ["enter"]]) == ["quit", "test", "enter"]
    ensures Merged([["test"], ["test"], ["test"]]) == ["test"]
    ensures Merged([[""], [""]]) == []
    ensures Merged([["test"], ["Test", "TEST"]]) == ["test", "Test", "TEST"]
  {
    assert "test"[0] != "quit"[0] && "enter"[0] != "quit"[0] && "enter"[0] != "test"[0];
    MergeSingletonsKeepsOrder("quit", "test", "enter");
    MergeRepeatedSingleton("test");
    assert Flatten([[""], [""]]) == ["", ""] by {
      FlattenAppend([[""], [""]], 0);
      FlattenAppend([[""], [""]], 1);
      assert [[""], [""]][..2] == [[""], [""]];
    }
    FirstOccurrencesAppend([], "");
    FirstOccurrencesAppend([""], "");
    assert "Test"[0] != "test"[0] && "TEST"[0] != "test"[0] && "TEST"[1] != "Test"[1];
    MergeDistinctKeepsAll("test", "Test", "TEST");
  }
}
