/**
 * The read side of the store: what the profile page, the admin dashboard and
 * the admin user list compute from `users` and `posts` before rendering.
 */
module Views {
  import opened Results
  import opened Entities

  datatype ProfileError = UserNotFound

  /** `profile`: an unknown id is refused; otherwise the user's record and
      exactly that user's posts, in store order. */
  function Profile(users: map<nat, User>, posts: seq<Post>, userId: nat): (r: Result<(User, seq<Post>), ProfileError>)
    ensures r.Failure? <==> userId !in users
    ensures r.Success? ==> r.value.0 == users[userId]
    ensures r.Success? ==> forall p :: p in r.value.1 <==> p in posts && p.userId == userId
  {
    if userId !in users then Failure(UserNotFound)
    else Success((users[userId], Select(posts, Author(userId), true)))
  }

  /** The ids below `bound` of the users whose admin flag is `admin`. */
  function RoleIds(users: map<nat, User>, admin: bool, bound: nat): set<nat> {
    set k | k in users && k < bound && users[k].isAdmin == admin
  }

  /** `sorted([u for u in users.values() if <admin flag is admin>], key=id, reverse=True)`
      over the users stored under ids below `bound`: walking the ids down from
      `bound - 1` lists the records highest id first. */
  function ByIdDescending(users: map<nat, User>, admin: bool, bound: nat): (r: seq<User>)
    ensures |r| <= bound
  {
    if bound == 0 then []
    else
      var k := bound - 1;
      (if k in users && users[k].isAdmin == admin then [users[k]] else []) + ByIdDescending(users, admin, k)
  }

  /** Each listed user is stored under its own id and has the role. */
  ghost predicate ListedFromRole(users: map<nat, User>, admin: bool, bound: nat, r: seq<User>) {
    forall i :: 0 <= i < |r| ==> r[i].id in RoleIds(users, admin, bound) && users[r[i].id] == r[i]
  }

  /** Every user with the role is listed. */
  ghost predicate ListsWholeRole(users: map<nat, User>, admin: bool, bound: nat, r: seq<User>) {
    forall k :: k in RoleIds(users, admin, bound) ==> users[k] in r
  }

  /** Ids strictly decrease along the list. */
  ghost predicate IdsDescend(r: seq<User>) {
    forall i, j :: 0 <= i < j < |r| ==> r[i].id > r[j].id
  }

  /** The listing holds exactly the records of the users with that role: each
      listed user is stored under its own id, and every such user is listed. */
  lemma {:induction false} ByIdDescendingMembers(users: map<nat, User>, admin: bool, bound: nat)
    requires forall k :: k in users ==> users[k].id == k
    ensures ListedFromRole(users, admin, bound, ByIdDescending(users, admin, bound))
    ensures ListsWholeRole(users, admin, bound, ByIdDescending(users, admin, bound))
  {
    if bound > 0 {
      var k := bound - 1;
      ByIdDescendingMembers(users, admin, k);
      var rest := ByIdDescending(users, admin, k);
      var head := if k in users && users[k].isAdmin == admin then [users[k]] else [];
      var r := ByIdDescending(users, admin, bound);
      assert r == head + rest;
      forall i | 0 <= i < |r| ensures r[i].id in RoleIds(users, admin, bound) && users[r[i].id] == r[i] {
        if i >= |head| {
          assert r[i] == rest[i - |head|];
          assert rest[i - |head|].id in RoleIds(users, admin, k);
        }
      }
      forall j | j in RoleIds(users, admin, bound) ensures users[j] in r {
        if j != k {
          assert j in RoleIds(users, admin, k);
          assert users[j] in rest;
        }
      }
    }
  }

  /** The listing is strictly ordered by id, highest first. */
  lemma {:induction false} ByIdDescendingSorted(users: map<nat, User>, admin: bool, bound: nat)
    requires forall k :: k in users ==> users[k].id == k
    ensures IdsDescend(ByIdDescending(users, admin, bound))
  {
    if bound > 0 {
      var k := bound - 1;
      ByIdDescendingSorted(users, admin, k);
      var rest := ByIdDescending(users, admin, k);
      var r := ByIdDescending(users, admin, bound);
      if k in users && users[k].isAdmin == admin {
        assert r == [users[k]] + rest;
        ByIdDescendingMembers(users, admin, k);
        forall i, j | 0 <= i < j < |r| ensures r[i].id > r[j].id {
          assert r[j] == rest[j - 1];
          if i > 0 {
            assert r[i] == rest[i - 1];
          } else {
            assert rest[j - 1].id in RoleIds(users, admin, k);
          }
        }
      } else {
        assert r == rest;
      }
    }
  }

  /** The listing holds as many users as the comprehension it sorts. */
  lemma {:induction false} ByIdDescendingLength(users: map<nat, User>, admin: bool, bound: nat)
    ensures |ByIdDescending(users, admin, bound)| == |RoleIds(users, admin, bound)|
  {
    if bound > 0 {
      var k := bound - 1;
      ByIdDescendingLength(users, admin, k);
      var below, upto := RoleIds(users, admin, k), RoleIds(users, admin, bound);
      if k in users && users[k].isAdmin == admin {
        assert |ByIdDescending(users, admin, bound)| == |ByIdDescending(users, admin, k)| + 1;
        assert upto == below + {k} by {
          forall j ensures j in upto <==> j in below + {k} {
          }
        }
        assert k !in below;
      } else {
        assert |ByIdDescending(users, admin, bound)| == |ByIdDescending(users, admin, k)|;
        assert upto == below by {
          forall j ensures j in upto <==> j in below {
          }
        }
      }
    } else {
      assert RoleIds(users, admin, bound) == {};
    }
  }

  /** Every user is either an admin or not: the two counts add up to the
      number of users. */
  lemma RoleCountsPartition(users: map<nat, User>, userCounter: nat)
    requires UsersKeyed(users, userCounter)
    ensures |RoleIds(users, true, userCounter)| + |RoleIds(users, false, userCounter)| == |users|
  {
    var admins, others := RoleIds(users, true, userCounter), RoleIds(users, false, userCounter);
    assert admins + others == users.Keys;
    assert admins * others == {};
  }

  datatype Stats = Stats(totalUsers: nat, totalPosts: nat, totalAdmins: nat, recentUsers: seq<User>)

  /** `admin_dashboard` without the recent-posts list: the non-admin and admin
      counts, the number of posts, and the first five of the non-admin listing. */
  function Dashboard(users: map<nat, User>, posts: seq<Post>, userCounter: nat): (s: Stats)
    ensures s.totalPosts == |posts|
    ensures |s.recentUsers| <= 5 && |s.recentUsers| <= s.totalUsers
  {
    var listed := ByIdDescending(users, false, userCounter);
    var recent := if |listed| <= 5 then listed else listed[..5];
    ByIdDescendingLength(users, false, userCounter);
    Stats(|listed|, |posts|, |ByIdDescending(users, true, userCounter)|, recent)
  }

  /** The dashboard counts the non-admin and the admin users, which together
      cover every user exactly once, and it shows five
      recent users unless there are fewer non-admin users than that. */
  lemma DashboardCounts(users: map<nat, User>, posts: seq<Post>, userCounter: nat)
    requires UsersKeyed(users, userCounter)
    ensures Dashboard(users, posts, userCounter).totalUsers == |RoleIds(users, false, userCounter)|
    ensures Dashboard(users, posts, userCounter).totalAdmins == |RoleIds(users, true, userCounter)|
    ensures Dashboard(users, posts, userCounter).totalUsers + Dashboard(users, posts, userCounter).totalAdmins == |users|
    ensures |Dashboard(users, posts, userCounter).recentUsers| ==
      if Dashboard(users, posts, userCounter).totalUsers < 5 then Dashboard(users, posts, userCounter).totalUsers else 5
  {
    ByIdDescendingLength(users, false, userCounter);
    ByIdDescendingLength(users, true, userCounter);
    RoleCountsPartition(users, userCounter);
  }

  /** The dashboard's recent users are non-admin users as stored, highest id
      first, and no unlisted non-admin user has a higher id than a listed one. */
  lemma DashboardRecentUsers(users: map<nat, User>, posts: seq<Post>, userCounter: nat)
    requires UsersKeyed(users, userCounter)
    ensures var recent := Dashboard(users, posts, userCounter).recentUsers;
      && (forall i :: 0 <= i < |recent| ==>
            recent[i].id in users && users[recent[i].id] == recent[i] && !recent[i].isAdmin)
      && IdsDescend(recent)
      && (forall k, i :: k in users && !users[k].isAdmin && users[k] !in recent && 0 <= i < |recent| ==>
            k < recent[i].id)
  {
    var listed := ByIdDescending(users, false, userCounter);
    var recent := Dashboard(users, posts, userCounter).recentUsers;
    assert |recent| <= |listed| && forall i :: 0 <= i < |recent| ==> recent[i] == listed[i];
    assert forall i :: 0 <= i < |recent| ==>
      recent[i].id in users && users[recent[i].id] == recent[i] && !recent[i].isAdmin
    by {
      ByIdDescendingMembers(users, false, userCounter);
      assert ListedFromRole(users, false, userCounter, listed);
    }
    assert IdsDescend(recent) by {
      ByIdDescendingSorted(users, false, userCounter);
      assert IdsDescend(listed);
    }
    forall k, i | k in users && !users[k].isAdmin && users[k] !in recent && 0 <= i < |recent|
      ensures k < recent[i].id
    {
      ByIdDescendingMembers(users, false, userCounter);
      ByIdDescendingSorted(users, false, userCounter);
      assert k in RoleIds(users, false, userCounter);
      assert users[k] in listed;
      var m :| 0 <= m < |listed| && listed[m] == users[k];
      assert m >= |recent|;
      assert listed[i].id > listed[m].id;
    }
  }
}
