/** A worked feed scenario: three posts read two at a time, newest first. */
module FeedScenario {
  import opened Wrappers
  import opened Schema
  import opened PostService

  function Row(id: Id): Post
  {
    Post(id, None, "hello", "u1", Some("college"), None, POST, [], false, false)
  }

  /**
   * Posts A, B, C created in that order, the store ordering them C, B, A, limit 2: the
   * first page is [C, B] with more to come and cursor B; asking again with cursor B gives
   * [B, A] with nothing more and cursor A. B is served twice because the cursor is inclusive.
   */
  lemma ThreePostsTwoPages()
    ensures var order := (sortBy: string, sortType: SortType) => [Row("C"), Row("B"), Row("A")];
            var q1 := FeedQuery(Some("college"), None, PostFilter(None, None, None, None),
                                FeedOptions(Some(2), None, None, None));
            var q2 := q1.(options := q1.options.(cursor := Some("B")));
            && FeedPage(q1, order) == Page([Row("C"), Row("B")], true, Some("B"))
            && FeedPage(q2, order) == Page([Row("B"), Row("A")], false, Some("A"))
  {
    var order := (sortBy: string, sortType: SortType) => [Row("C"), Row("B"), Row("A")];
    var ordered := [Row("C"), Row("B"), Row("A")];
    var w := BuildWhere(Some("college"), None, PostFilter(None, None, None, None));
    assert Satisfies(Row("C"), w) && Satisfies(Row("B"), w) && Satisfies(Row("A"), w);
    assert Select(ordered[2..], w) == [Row("A")] by {
      assert ordered[2..][1..] == [];
    }
    assert Select(ordered[1..], w) == [Row("B"), Row("A")] by {
      assert ordered[1..][1..] == ordered[2..];
    }
    assert Select(ordered, w) == [Row("C"), Row("B"), Row("A")];
    assert IndexOfPost(ordered, "B") == Some(1) by {
      assert ordered[1].id == "B" && ordered[0].id != "B";
    }
  }
}
