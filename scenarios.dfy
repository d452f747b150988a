/**
 * Request sequences against a fresh store, with the outcome each handler
 * sequence has to produce.
 */
module Scenarios {
  import opened Results
  import opened PyStr
  import opened Entities
  import opened Store

  /** An account posts, then renames itself: the post shows the new name. */
  method RenameReachesPost(now: Timestamp) returns (shown: string)
    ensures shown == "Alex"
  {
    var s := new Store();
    var a := s.Register("A", "a@example.com", "", "secret", "secret");
    assert !IsBlank("hello") by {
      assert !IsSpace("hello"[0]);
    }
    var p := s.CreatePost(1, "A", "hello", now);
    assert !IsBlank("Alex") by {
      assert !IsSpace("Alex"[0]);
    }
    var e := s.EditProfile(1, "Alex", "");
    assert s.posts[0].userId == 1;
    shown := s.posts[0].authorName;
  }

  /** Two accounts and a post by the first; deleting the second leaves the
      post, deleting the first takes it along. */
  method CascadeDeletesPosts(now: Timestamp)
    returns (idsAfterOther: set<nat>, postsAfterOther: nat, idsAfterAuthor: set<nat>, postsAfterAuthor: nat)
    ensures idsAfterOther == {1} && postsAfterOther == 1
    ensures idsAfterAuthor == {} && postsAfterAuthor == 0
  {
    var s := new Store();
    var a := s.Register("A", "a@example.com", "", "secret", "secret");
    var b := s.Register("B", "b@example.com", "", "secret", "secret");
    assert !IsBlank("hello") by {
      assert !IsSpace("hello"[0]);
    }
    var p := s.CreatePost(1, "A", "hello", now);
    var post := s.posts[0];
    assert s.posts == [post] && post.userId == 1;
    var deletedOther := s.DeleteUser(2);
    assert Select([post], Author(2), false) == [post];
    idsAfterOther, postsAfterOther := s.users.Keys, |s.posts|;
    var deletedAuthor := s.DeleteUser(1);
    assert Select([post], Author(1), false) == [];
    idsAfterAuthor, postsAfterAuthor := s.users.Keys, |s.posts|;
  }

  /** Registering the same email twice: the second attempt is refused, the
      counter stays where the first left it, and exactly one user holds the
      email. */
  method DuplicateRegistration()
    returns (first: Result<nat, RegisterError>, second: Result<nat, RegisterError>, count: nat, holders: set<nat>)
    ensures first == Success(1)
    ensures second == Failure(DuplicateEmail)
    ensures count == 2
    ensures holders == {1}
  {
    var s := new Store();
    first := s.Register("A", "a@example.com", "", "secret", "secret");
    second := s.Register("B", "a@example.com", "", "other", "other");
    count := s.userCounter;
    holders := set k | k in s.users && s.users[k].email == "a@example.com";
    assert 1 in holders;
  }

  /** A user who has posted is promoted: the delete is refused, and the user
      and the post both remain. */
  method PromoteThenDelete(now: Timestamp) returns (deleted: bool, stillThere: bool, postCount: nat)
    ensures !deleted && stillThere && postCount == 1
  {
    var s := new Store();
    var a := s.Register("A", "a@example.com", "", "secret", "secret");
    assert !IsBlank("hello") by {
      assert !IsSpace("hello"[0]);
    }
    var p := s.CreatePost(1, "A", "hello", now);
    var promoted := s.MakeAdmin(1);
    deleted := s.DeleteUser(1);
    stillThere := 1 in s.users;
    postCount := |s.posts|;
  }
}
