/**
 * The two record kinds of the in-memory store, users and posts, and the
 * value-level operations on the post list that the handlers apply: the
 * filtering list comprehensions and the author-name rewrite.
 */
module Entities {

  /** werkzeug's salted password hash, modelled as an ideal function: two
      passwords have the same hash only if they are equal. */
  datatype PasswordHash = Hashed(secret: string)

  function GeneratePasswordHash(password: string): PasswordHash {
    Hashed(password)
  }

  /** `check_password_hash`: accepts exactly the password the hash was made from. */
  function CheckPasswordHash(h: PasswordHash, password: string): (ok: bool)
    ensures ok <==> h == GeneratePasswordHash(password)
  {
    h.secret == password
  }

  datatype User = User(id: nat, name: string, email: string, bio: string,
                       passwordHash: PasswordHash, isAdmin: bool)

  /** The value `datetime.now()` returned when a post was created. */
  type Timestamp = nat

  datatype Post = Post(id: nat, userId: nat, content: string, timestamp: Timestamp,
                       authorName: string)

  /** What a post-list comprehension compares: the post's own id or its author's id. */
  datatype PostKey = PostId(id: nat) | Author(userId: nat)

  predicate Matches(p: Post, key: PostKey) {
    match key
    case PostId(id) => p.id == id
    case Author(uid) => p.userId == uid
  }

  /** `[p for p in posts if <p matches key> == keep]`: the posts, in list order,
      whose match against `key` is `keep`. */
  function Select(posts: seq<Post>, key: PostKey, keep: bool): (r: seq<Post>)
    ensures |r| <= |posts|
    ensures forall p :: p in r <==> p in posts && Matches(p, key) == keep
  {
    if posts == [] then []
    else (if Matches(posts[0], key) == keep then [posts[0]] else []) + Select(posts[1..], key, keep)
  }

  /** Filtering commutes with concatenation: the kept posts stay in their relative order. */
  lemma {:induction false} SelectAppend(a: seq<Post>, b: seq<Post>, key: PostKey, keep: bool)
    ensures Select(a + b, key, keep) == Select(a, key, keep) + Select(b, key, keep)
  {
    if a != [] {
      var head := if Matches(a[0], key) == keep then [a[0]] else [];
      assert (a + b)[0] == a[0];
      assert (a + b)[1..] == a[1..] + b;
      SelectAppend(a[1..], b, key, keep);
      calc {
        Select(a + b, key, keep);
        head + Select(a[1..] + b, key, keep);
        head + (Select(a[1..], key, keep) + Select(b, key, keep));
        (head + Select(a[1..], key, keep)) + Select(b, key, keep);
        Select(a, key, keep) + Select(b, key, keep);
      }
    } else {
      assert a + b == b;
    }
  }

  /** A filter that drops nothing returns the list itself (deleting an absent id is a no-op). */
  lemma {:induction false} SelectKeepsAll(posts: seq<Post>, key: PostKey, keep: bool)
    requires forall i :: 0 <= i < |posts| ==> Matches(posts[i], key) == keep
    ensures Select(posts, key, keep) == posts
  {
    if posts != [] {
      SelectKeepsAll(posts[1..], key, keep);
    }
  }

  /** Every post lands in exactly one of the two complementary filters. */
  lemma {:induction false} SelectPartition(posts: seq<Post>, key: PostKey)
    ensures |Select(posts, key, true)| + |Select(posts, key, false)| == |posts|
  {
    if posts != [] {
      SelectPartition(posts[1..], key);
    }
  }

  /** The loop that copies an edited name into the author's posts: every post of
      `userId` shows `name`, and nothing else about any post changes. */
  function RenameAuthor(posts: seq<Post>, userId: nat, name: string): (r: seq<Post>)
    ensures |r| == |posts|
    ensures forall i :: 0 <= i < |posts| ==>
      && r[i].id == posts[i].id
      && r[i].userId == posts[i].userId
      && r[i].content == posts[i].content
      && r[i].timestamp == posts[i].timestamp
      && r[i].authorName == (if posts[i].userId == userId then name else posts[i].authorName)
  {
    seq(|posts|, i requires 0 <= i < |posts| =>
      if posts[i].userId == userId then posts[i].(authorName := name) else posts[i])
  }

  // ---------------------------------------------------------------------
  // Store invariants, stated on values so that the lemmas below can use them.

  /** Every user is stored under its own id, and that id has been issued. */
  ghost predicate UsersKeyed(users: map<nat, User>, userCounter: nat) {
    forall k :: k in users ==> users[k].id == k && 0 < k < userCounter
  }

  /** No two users share an email (exact, case-sensitive comparison). */
  ghost predicate EmailsUnique(users: map<nat, User>) {
    forall j, k :: j in users && k in users && users[j].email == users[k].email ==> j == k
  }

  /** Overwriting a user's record with one that keeps its id and email keeps
      the users invariants: editing a profile or promoting to admin cannot
      break key agreement or email uniqueness. */
  lemma ReplaceKeepsUsersInvariant(users: map<nat, User>, userCounter: nat, k: nat, u: User)
    requires UsersKeyed(users, userCounter) && EmailsUnique(users)
    requires k in users && u.id == k && u.email == users[k].email
    ensures UsersKeyed(users[k := u], userCounter) && EmailsUnique(users[k := u])
  {
    var m := users[k := u];
    forall a, b | a in m && b in m && m[a].email == m[b].email ensures a == b {
      assert m[a].email == users[a].email && m[b].email == users[b].email;
    }
  }

  /** Adding a user under the current counter value, with an email no one has,
      keeps the users invariants once the counter moves past the new id. */
  lemma InsertKeepsUsersInvariant(users: map<nat, User>, userCounter: nat, u: User)
    requires UsersKeyed(users, userCounter) && EmailsUnique(users)
    requires 0 < userCounter && u.id == userCounter
    requires forall k :: k in users ==> users[k].email != u.email
    ensures UsersKeyed(users[userCounter := u], userCounter + 1) && EmailsUnique(users[userCounter := u])
  {
    var m := users[userCounter := u];
    forall a, b | a in m && b in m && m[a].email == m[b].email ensures a == b {
      if a != userCounter && b != userCounter {
        assert m[a] == users[a] && m[b] == users[b];
      }
    }
  }

  /** Every post id was issued by the counter. */
  ghost predicate PostIdsIssued(posts: seq<Post>, postCounter: nat) {
    forall i :: 0 <= i < |posts| ==> 0 < posts[i].id < postCounter
  }

  /** Post ids strictly increase along the list. */
  ghost predicate PostIdsAscend(posts: seq<Post>) {
    forall i, j :: 0 <= i < j < |posts| ==> posts[i].id < posts[j].id
  }

  /** Post ids have been issued and strictly increase along the list. */
  ghost predicate PostIdsIncreasing(posts: seq<Post>, postCounter: nat) {
    PostIdsIssued(posts, postCounter) && PostIdsAscend(posts)
  }

  /** Referential integrity and author-name sync: every post's author is a live
      user, and the post shows that user's current name. */
  ghost predicate Consistent(users: map<nat, User>, posts: seq<Post>) {
    forall i :: 0 <= i < |posts| ==>
      posts[i].userId in users && posts[i].authorName == users[posts[i].userId].name
  }

  /** Filtering keeps post ids strictly increasing: the kept posts keep their order. */
  lemma {:induction false} SelectKeepsIdsAscending(posts: seq<Post>, key: PostKey, keep: bool)
    requires PostIdsAscend(posts)
    ensures PostIdsAscend(Select(posts, key, keep))
  {
    if posts != [] {
      var tail := posts[1..];
      assert PostIdsAscend(tail) by {
        forall i, j | 0 <= i < j < |tail| ensures tail[i].id < tail[j].id {
          assert tail[i] == posts[i + 1] && tail[j] == posts[j + 1];
        }
      }
      SelectKeepsIdsAscending(tail, key, keep);
      var rest := Select(tail, key, keep);
      if Matches(posts[0], key) == keep {
        assert forall j :: 0 <= j < |rest| ==> posts[0].id < rest[j].id by {
          forall j | 0 <= j < |rest| ensures posts[0].id < rest[j].id {
            assert rest[j] in tail;
            var k :| 0 <= k < |tail| && tail[k] == rest[j];
            assert posts[k + 1] == rest[j];
          }
        }
        var r := [posts[0]] + rest;
        assert PostIdsAscend(r) by {
          forall i, j | 0 <= i < j < |r| ensures r[i].id < r[j].id {
            assert r[j] == rest[j - 1];
            if i > 0 {
              assert r[i] == rest[i - 1];
            } else {
              assert posts[0].id < rest[j - 1].id;
            }
          }
        }
        assert Select(posts, key, keep) == r;
      } else {
        assert Select(posts, key, keep) == rest;
      }
    }
  }

  /** Filtering keeps post ids issued and strictly increasing. */
  lemma SelectKeepsIdsIncreasing(posts: seq<Post>, key: PostKey, keep: bool, postCounter: nat)
    requires PostIdsIncreasing(posts, postCounter)
    ensures PostIdsIncreasing(Select(posts, key, keep), postCounter)
  {
    SelectKeepsIdsAscending(posts, key, keep);
    var r := Select(posts, key, keep);
    forall i | 0 <= i < |r| ensures 0 < r[i].id < postCounter {
      assert r[i] in posts;
    }
  }

  /** Post ids are unique: deleting an id that is present removes exactly one post. */
  lemma {:induction false} OnePostWithId(posts: seq<Post>, id: nat, postCounter: nat)
    requires PostIdsIncreasing(posts, postCounter)
    requires exists i :: 0 <= i < |posts| && posts[i].id == id
    ensures |Select(posts, PostId(id), true)| == 1
    ensures |Select(posts, PostId(id), false)| == |posts| - 1
  {
    var i :| 0 <= i < |posts| && posts[i].id == id;
    var key := PostId(id);
    var before, after := posts[..i], posts[i + 1..];
    assert Select(before, key, true) == [] by {
      forall j | 0 <= j < |before| ensures !Matches(before[j], key) {
        assert before[j] == posts[j];
      }
      NoneMatch(before, key);
    }
    assert Select(after, key, true) == [] by {
      forall j | 0 <= j < |after| ensures !Matches(after[j], key) {
        assert after[j] == posts[i + 1 + j];
      }
      NoneMatch(after, key);
    }
    assert Select(posts, key, true) == [posts[i]] by {
      assert posts == before + ([posts[i]] + after);
      SelectAppend(before, [posts[i]] + after, key, true);
      SelectAppend([posts[i]], after, key, true);
      assert [posts[i]][1..] == [];
    }
    SelectPartition(posts, key);
  }

  /** A filter keeping the matches of a key nobody matches is empty. */
  lemma {:induction false} NoneMatch(posts: seq<Post>, key: PostKey)
    requires forall j :: 0 <= j < |posts| ==> !Matches(posts[j], key)
    ensures Select(posts, key, true) == []
  {
    if posts != [] {
      NoneMatch(posts[1..], key);
    }
  }

  /** Any filter keeps referential integrity and author-name sync when the
      users are unchanged. */
  lemma {:induction false} SelectKeepsConsistent(users: map<nat, User>, posts: seq<Post>, key: PostKey, keep: bool)
    requires Consistent(users, posts)
    ensures Consistent(users, Select(posts, key, keep))
  {
    var r := Select(posts, key, keep);
    forall i | 0 <= i < |r|
      ensures r[i].userId in users && r[i].authorName == users[r[i].userId].name
    {
      assert r[i] in posts;
    }
  }

  /** Cascading delete keeps referential integrity and sync: removing user
      `userId` together with all of that user's posts leaves no post orphaned. */
  lemma {:induction false} CascadeKeepsConsistent(users: map<nat, User>, posts: seq<Post>, userId: nat)
    requires Consistent(users, posts)
    ensures Consistent(users - {userId}, Select(posts, Author(userId), false))
  {
    var r := Select(posts, Author(userId), false);
    forall i | 0 <= i < |r|
      ensures r[i].userId in users - {userId} && r[i].authorName == (users - {userId})[r[i].userId].name
    {
      assert r[i] in posts;
    }
  }

  /** Renaming a live user and rewriting that user's posts keeps sync. */
  lemma {:induction false} RenameKeepsConsistent(users: map<nat, User>, posts: seq<Post>, userId: nat, name: string, bio: string)
    requires Consistent(users, posts) && userId in users
    ensures Consistent(users[userId := users[userId].(name := name, bio := bio)], RenameAuthor(posts, userId, name))
  {
  }

  /** Rewriting author names leaves post ids, and so their order, untouched. */
  lemma {:induction false} RenameKeepsIdsIncreasing(posts: seq<Post>, userId: nat, name: string, postCounter: nat)
    requires PostIdsIncreasing(posts, postCounter)
    ensures PostIdsIncreasing(RenameAuthor(posts, userId, name), postCounter)
  {
  }
}
