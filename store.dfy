/**
 * The application's in-memory store: the `users` dictionary keyed by id, the
 * `posts` list, and the two id counters, with one method per request handler
 * that changes them. The session values a handler reads (`user_id`,
 * `user_name`) arrive as parameters; `datetime.now()` arrives as `now`.
 */
module Store {
  import opened Results
  import opened PyStr
  import opened Entities

  const AdminName := "Admin User"
  const AdminEmail := "admin@procommunity.com"
  const AdminBio := "Platform Administrator - Managing the ProCommunity platform"
  const AdminPassword := "admin123"

  datatype SampleUser = SampleUser(name: string, email: string, bio: string, password: string)

  /** The four demo accounts created at start-up, in creation order. */
  const SampleUsers: seq<SampleUser> := [
    SampleUser("Arjun Sharma", "arjun.sharma@email.com",
      "Software Engineer passionate about building scalable web applications. Love coding in Python and JavaScript.",
      "password123"),
    SampleUser("Priya Patel", "priya.patel@email.com",
      "Full Stack Developer with 3+ years experience. Interested in AI/ML and cloud technologies.",
      "password123"),
    SampleUser("Rahul Gupta", "rahul.gupta@email.com",
      "Data Scientist working on machine learning projects. Python enthusiast and tech blogger.",
      "password123"),
    SampleUser("Sneha Reddy", "sneha.reddy@email.com",
      "UI/UX Designer and Frontend Developer. Creating beautiful and intuitive user experiences.",
      "password123")
  ]

  datatype SamplePost = SamplePost(userId: nat, content: string)

  /** The five demo posts created at start-up, in creation order. */
  const SamplePosts: seq<SamplePost> := [
    SamplePost(1, "Excited to share that I just completed a new web application using Flask and JavaScript! The journey of learning new technologies never stops. \U{1F680}"),
    SamplePost(2, "Just finished reading an amazing article about the future of AI in software development. The possibilities are endless!"),
    SamplePost(3, "Working on a machine learning model that can predict user behavior. Data science is truly fascinating! \U{1F4CA}"),
    SamplePost(4, "Designed a new user interface for a mobile app today. Clean, minimal, and user-friendly. Design matters! \U{2728}"),
    SamplePost(1, "Attending a tech conference next week. Looking forward to networking with fellow developers and learning about new technologies.")
  ]

  /** The demo posts as their contents evidently intend them: each author id
      moved one past the administrator's, so that post i belongs to the demo
      account whose profile it matches (ids 2, 3, 4, 5, 2). */
  const IntendedSamplePosts: seq<SamplePost> :=
    seq(|SamplePosts|, i requires 0 <= i < |SamplePosts| => SamplePosts[i].(userId := SamplePosts[i].userId + 1))

  /** Some post of `items` is by user `userId`. */
  predicate Authors(items: seq<SamplePost>, userId: nat) {
    exists i :: 0 <= i < |items| && items[i].userId == userId
  }

  /** As written, the seed gives two demo posts to the administrator (id 1)
      and none to the last demo account (id 5). */
  lemma SeedPostAuthorsAsWritten()
    ensures SamplePosts[0].userId == AdminRecord().id && SamplePosts[4].userId == AdminRecord().id
    ensures !Authors(SamplePosts, 2 + |SampleUsers| - 1)
  {
  }

  /** With the intended ids, no demo post is the administrator's and every
      demo account (ids 2-5) has at least one. */
  lemma IntendedSeedPostAuthors()
    ensures !Authors(IntendedSamplePosts, AdminRecord().id)
    ensures forall k :: 2 <= k < 2 + |SampleUsers| ==> Authors(IntendedSamplePosts, k)
  {
    SamplePostAuthors();
    assert IntendedSamplePosts[0].userId == 2 && IntendedSamplePosts[1].userId == 3;
    assert IntendedSamplePosts[2].userId == 4 && IntendedSamplePosts[3].userId == 5;
  }

  /** The administrator record seeded under id 1. */
  function AdminRecord(): User {
    User(1, AdminName, AdminEmail, AdminBio, GeneratePasswordHash(AdminPassword), true)
  }

  /** The record a demo account becomes when it is stored under `id`. */
  function AccountRecord(data: SampleUser, id: nat): User {
    User(id, data.name, data.email, data.bio, GeneratePasswordHash(data.password), false)
  }

  /** No two demo accounts share an email. */
  predicate DistinctEmails(accounts: seq<SampleUser>) {
    forall i, j :: 0 <= i < j < |accounts| ==> accounts[i].email != accounts[j].email
  }

  /** The seeded emails are pairwise distinct and differ from the administrator's. */
  lemma SeedEmailsDistinct()
    ensures forall i :: 0 <= i < |SampleUsers| ==> SampleUsers[i].email != AdminEmail
    ensures DistinctEmails(SampleUsers)
  {
    assert SampleUsers[0].email[1] != AdminEmail[1];
    forall i | 1 <= i < |SampleUsers| ensures SampleUsers[i].email[0] != AdminEmail[0] {
    }
  }

  /** Every demo post is written by the administrator or a demo account. */
  lemma SamplePostAuthors()
    ensures |SampleUsers| == 4 && |SamplePosts| == 5
    ensures forall i :: 0 <= i < |SamplePosts| ==> 1 <= SamplePosts[i].userId < 2 + |SampleUsers|
  {
  }

  /** `after` is `before` with one record per account added under consecutive
      ids from `start`, and nothing else. */
  ghost predicate Appended(before: map<nat, User>, start: nat, accounts: seq<SampleUser>, after: map<nat, User>) {
    && (forall k :: k in after <==> k in before || start <= k < start + |accounts|)
    && (forall k :: k in before ==> after[k] == before[k])
    && (forall k :: start <= k < start + |accounts| ==> after[k] == AccountRecord(accounts[k - start], k))
  }

  /** One more account stored under the next id extends the appended map by one. */
  lemma AppendedStep(before: map<nat, User>, start: nat, accounts: seq<SampleUser>, i: nat,
                     users: map<nat, User>, user: User)
    requires i < |accounts| && Appended(before, start, accounts[..i], users)
    requires forall k :: k in before ==> k < start
    requires user == AccountRecord(accounts[i], start + i)
    ensures Appended(before, start, accounts[..i + 1], users[start + i := user])
  {
    var after := users[start + i := user];
    forall k | start <= k < start + i + 1 ensures after[k] == AccountRecord(accounts[..i + 1][k - start], k) {
      if k < start + i {
        assert after[k] == users[k];
        assert accounts[..i][k - start] == accounts[..i + 1][k - start];
      }
    }
  }

  /** Appending accounts with fresh, distinct emails under fresh ids keeps the
      users invariants. */
  lemma AppendedKeepsUsersInvariant(before: map<nat, User>, start: nat, accounts: seq<SampleUser>, after: map<nat, User>)
    requires 0 < start && UsersKeyed(before, start) && EmailsUnique(before)
    requires DistinctEmails(accounts)
    requires forall k, i :: k in before && 0 <= i < |accounts| ==> before[k].email != accounts[i].email
    requires Appended(before, start, accounts, after)
    ensures UsersKeyed(after, start + |accounts|) && EmailsUnique(after)
  {
    forall a, b | a in after && b in after && after[a].email == after[b].email ensures a == b {
      if a in before && b in before {
        assert after[a] == before[a] && after[b] == before[b];
      } else if a !in before && b !in before {
        assert after[a].email == accounts[a - start].email;
        assert after[b].email == accounts[b - start].email;
      }
    }
  }

  datatype RegisterError = MissingField | PasswordMismatch | DuplicateEmail
  datatype PostError = EmptyContent
  datatype EditError = NoSuchUser | EmptyName

  /** Some user has exactly this email. */
  ghost predicate EmailInUse(users: map<nat, User>, email: string) {
    exists k :: k in users && users[k].email == email
  }

  class Store {
    var users: map<nat, User>
    var posts: seq<Post>
    var userCounter: nat
    var postCounter: nat

    /** The store invariant: ids match keys and were issued by the counters,
        post ids increase along the list, emails are unique. */
    ghost predicate Valid()
      reads this
    {
      && 0 < userCounter && 0 < postCounter
      && UsersKeyed(users, userCounter)
      && EmailsUnique(users)
      && PostIdsIncreasing(posts, postCounter)
    }

    /** Every post belongs to a live user and shows that user's current name.
        The handlers keep this only as long as the session's user exists. */
    ghost predicate Consistent()
      reads this
    {
      Entities.Consistent(users, posts)
    }

    /** The empty store of module load time: no users, no posts, counters at 1. */
    constructor ()
      ensures Valid()
      ensures users == map[] && posts == [] && userCounter == 1 && postCounter == 1
    {
      users := map[];
      posts := [];
      userCounter := 1;
      postCounter := 1;
    }

    /** `init_sample_data`: the administrator (id 1), then the four demo users
        (ids 2-5) and the five demo posts (ids 1-5), all stamped `now`. */
    method InitSampleData(now: Timestamp)
      requires users == map[] && posts == [] && userCounter == 1 && postCounter == 1
      modifies this
      ensures Valid() && Consistent()
      ensures userCounter == 6 && postCounter == 6
      ensures Appended(map[1 := AdminRecord()], 2, SampleUsers, users)
      ensures |posts| == |SamplePosts|
      ensures forall i :: 0 <= i < |SamplePosts| ==>
        posts[i] == Post(i + 1, SamplePosts[i].userId, SamplePosts[i].content, now,
                         users[SamplePosts[i].userId].name)
    {
      var adminId := userCounter;
      users := users[adminId := AdminRecord()];
      userCounter := userCounter + 1;
      SeedEmailsDistinct();
      SeedUsers(SampleUsers);
      SamplePostAuthors();
      SeedPosts(SamplePosts, now);
    }

    /** The first loop of `init_sample_data`: one account per entry of
        `accounts`, under consecutive ids from the current counter value. */
    method SeedUsers(accounts: seq<SampleUser>)
      requires 0 < userCounter && UsersKeyed(users, userCounter) && EmailsUnique(users)
      requires DistinctEmails(accounts)
      requires forall k, i :: k in users && 0 <= i < |accounts| ==> users[k].email != accounts[i].email
      modifies this`users, this`userCounter
      ensures userCounter == old(userCounter) + |accounts|
      ensures Appended(old(users), old(userCounter), accounts, users)
      ensures UsersKeyed(users, userCounter) && EmailsUnique(users)
    {
      ghost var start, before := userCounter, users;
      for i := 0 to |accounts|
        invariant userCounter == start + i
        invariant Appended(before, start, accounts[..i], users)
      {
        var data := accounts[i];
        var userId := userCounter;
        var user := User(userId, data.name, data.email, data.bio, GeneratePasswordHash(data.password), false);
        AppendedStep(before, start, accounts, i, users, user);
        users := users[userId := user];
        userCounter := userCounter + 1;
      }
      assert accounts[..|accounts|] == accounts;
      AppendedKeepsUsersInvariant(before, start, accounts, users);
    }

    /** The second loop of `init_sample_data`: one post per entry of `items`,
        under consecutive ids, showing its author's current name. */
    method SeedPosts(items: seq<SamplePost>, now: Timestamp)
      requires forall i :: 0 <= i < |items| ==> items[i].userId in users
      requires posts == [] && postCounter == 1
      modifies this`posts, this`postCounter
      ensures postCounter == |items| + 1 && |posts| == |items|
      ensures forall i :: 0 <= i < |items| ==>
        posts[i] == Post(i + 1, items[i].userId, items[i].content, now, users[items[i].userId].name)
      ensures PostIdsIncreasing(posts, postCounter) && Entities.Consistent(users, posts)
    {
      for i := 0 to |items|
        invariant postCounter == i + 1 && |posts| == i
        invariant forall j :: 0 <= j < i ==>
          posts[j] == Post(j + 1, items[j].userId, items[j].content, now, users[items[j].userId].name)
      {
        var data := items[i];
        var postId := postCounter;
        posts := posts + [Post(postId, data.userId, data.content, now, users[data.userId].name)];
        postCounter := postCounter + 1;
      }
    }

    /** The scan over `users.values()` for an account with exactly this email.
        Emails are unique, so the order of the scan does not matter. */
    method FindByEmail(email: string) returns (found: Option<User>)
      requires Valid()
      ensures found.None? <==> !EmailInUse(users, email)
      ensures found.Some? ==>
        found.value.id in users && users[found.value.id] == found.value && found.value.email == email
    {
      var unseen := users.Keys;
      while unseen != {}
        invariant unseen <= users.Keys
        invariant forall k :: k in users && k !in unseen ==> users[k].email != email
        decreases unseen
      {
        var k :| k in unseen;
        if users[k].email == email {
          return Some(users[k]);
        }
        unseen := unseen - {k};
      }
      return None;
    }

    /** `login`: the account with this email, provided the password matches its
        hash. An unknown email and a wrong password give the same answer. */
    method Login(email: string, password: string) returns (r: Option<User>)
      requires Valid()
      ensures r.Some? <==>
        exists k :: k in users && users[k].email == email && CheckPasswordHash(users[k].passwordHash, password)
      ensures r.Some? ==> r.value.id in users && users[r.value.id] == r.value && r.value.email == email
    {
      var found := FindByEmail(email);
      if found.Some? && CheckPasswordHash(found.value.passwordHash, password) {
        r := found;
      } else {
        r := None;
      }
    }

    /** `register`: presence checks, password confirmation, the duplicate-email
        check, then a new non-admin account under the next user id. */
    method Register(name: string, email: string, bio: string, password: string, confirm: string)
      returns (r: Result<nat, RegisterError>)
      requires Valid()
      modifies this
      ensures Valid()
      ensures posts == old(posts) && postCounter == old(postCounter)
      ensures r == Failure(MissingField) <==> (name == [] || email == [] || password == [] || confirm == [])
      ensures r == Failure(PasswordMismatch) <==>
        (name != [] && email != [] && password != [] && confirm != [] && password != confirm)
      ensures r == Failure(DuplicateEmail) <==>
        (name != [] && email != [] && password != [] && password == confirm && EmailInUse(old(users), email))
      ensures r.Success? <==>
        (name != [] && email != [] && password != [] && password == confirm && !EmailInUse(old(users), email))
      ensures r.Failure? ==> users == old(users) && userCounter == old(userCounter)
      ensures r.Success? ==>
        && r.value == old(userCounter) && r.value !in old(users)
        && users == old(users)[r.value := User(r.value, name, email, bio, GeneratePasswordHash(password), false)]
        && userCounter == old(userCounter) + 1
      ensures old(Consistent()) ==> Consistent()
    {
      if name == [] || email == [] || password == [] || confirm == [] {
        return Failure(MissingField);
      }
      if password != confirm {
        return Failure(PasswordMismatch);
      }
      var existing := FindByEmail(email);
      if existing.Some? {
        return Failure(DuplicateEmail);
      }
      var userId := userCounter;
      var user := User(userId, name, email, bio, GeneratePasswordHash(password), false);
      InsertKeepsUsersInvariant(users, userCounter, user);
      users := users[userId := user];
      userCounter := userCounter + 1;
      r := Success(userId);
    }

    /** `create_post` for the session's `userId` and `userName`: blank content
        is refused; otherwise one post is appended under the next post id.
        The handler never checks that the session's user still exists. */
    method CreatePost(userId: nat, userName: string, content: string, now: Timestamp)
      returns (r: Result<nat, PostError>)
      requires Valid()
      modifies this
      ensures Valid()
      ensures users == old(users) && userCounter == old(userCounter)
      ensures r.Failure? <==> IsBlank(content)
      ensures r.Failure? ==> posts == old(posts) && postCounter == old(postCounter)
      ensures r.Success? ==>
        && r.value == old(postCounter)
        && posts == old(posts) + [Post(r.value, userId, content, now, userName)]
        && postCounter == old(postCounter) + 1
      ensures old(Consistent()) && userId in users && users[userId].name == userName ==> Consistent()
    {
      StripEmptyIffBlank(content);
      if Strip(content) == [] {
        return Failure(EmptyContent);
      }
      var postId := postCounter;
      posts := posts + [Post(postId, userId, content, now, userName)];
      postCounter := postCounter + 1;
      r := Success(postId);
    }

    /** `edit_profile` (POST) for the session's `userId`: an absent user stops
        the handler before any change, a blank name is refused; otherwise name
        and bio are overwritten and every post of the user shows the new name. */
    method EditProfile(userId: nat, name: string, bio: string) returns (r: Result<User, EditError>)
      requires Valid()
      modifies this`users, this`posts
      ensures Valid()
      ensures r == Failure(NoSuchUser) <==> userId !in old(users)
      ensures r == Failure(EmptyName) <==> userId in old(users) && IsBlank(name)
      ensures r.Success? <==> userId in old(users) && !IsBlank(name)
      ensures r.Failure? ==> users == old(users) && posts == old(posts)
      ensures r.Success? ==>
        && r.value == old(users)[userId].(name := name, bio := bio)
        && users == old(users)[userId := r.value]
        && posts == RenameAuthor(old(posts), userId, name)
      ensures old(Consistent()) ==> Consistent()
    {
      if userId !in users {
        return Failure(NoSuchUser);
      }
      StripEmptyIffBlank(name);
      if Strip(name) == [] {
        return Failure(EmptyName);
      }
      var updated := ApplyProfileEdit(userId, name, bio);
      r := Success(updated);
    }

    /** The accepted half of `edit_profile`: overwrite name and bio, then copy
        the new name into the user's posts. */
    method ApplyProfileEdit(userId: nat, name: string, bio: string) returns (updated: User)
      requires Valid() && userId in users
      modifies this`users, this`posts
      ensures Valid()
      ensures updated == old(users)[userId].(name := name, bio := bio)
      ensures users == old(users)[userId := updated]
      ensures posts == RenameAuthor(old(posts), userId, name)
      ensures old(Consistent()) ==> Consistent()
    {
      updated := users[userId].(name := name, bio := bio);
      ReplaceKeepsUsersInvariant(users, userCounter, userId, updated);
      RenameKeepsIdsIncreasing(posts, userId, name, postCounter);
      if Consistent() {
        RenameKeepsConsistent(users, posts, userId, name, bio);
      }
      users := users[userId := updated];
      RenameAuthorInPosts(userId, name);
    }

    /** The loop of `edit_profile` that copies the new name into each of the
        user's posts, one post at a time. */
    method RenameAuthorInPosts(userId: nat, name: string)
      modifies this`posts
      ensures posts == RenameAuthor(old(posts), userId, name)
    {
      ghost var renamed := RenameAuthor(posts, userId, name);
      var i := 0;
      while i < |posts|
        invariant 0 <= i <= |posts| == |old(posts)|
        invariant forall j :: 0 <= j < i ==> posts[j] == renamed[j]
        invariant forall j :: i <= j < |posts| ==> posts[j] == old(posts)[j]
      {
        if posts[i].userId == userId {
          posts := posts[i := posts[i].(authorName := name)];
        }
        i := i + 1;
      }
    }

    /** `admin_delete_post`: drop every post with this id, keeping the rest in order. */
    method DeletePost(postId: nat)
      requires Valid()
      modifies this
      ensures Valid()
      ensures users == old(users) && userCounter == old(userCounter) && postCounter == old(postCounter)
      ensures posts == Select(old(posts), PostId(postId), false)
      ensures (exists i :: 0 <= i < |old(posts)| && old(posts)[i].id == postId) ==> |posts| == |old(posts)| - 1
      ensures (forall i :: 0 <= i < |old(posts)| ==> old(posts)[i].id != postId) ==> posts == old(posts)
      ensures old(Consistent()) ==> Consistent()
    {
      SelectKeepsIdsIncreasing(posts, PostId(postId), false, postCounter);
      if exists i :: 0 <= i < |posts| && posts[i].id == postId {
        OnePostWithId(posts, postId, postCounter);
      } else {
        SelectKeepsAll(posts, PostId(postId), false);
      }
      if Consistent() {
        SelectKeepsConsistent(users, posts, PostId(postId), false);
      }
      posts := Select(posts, PostId(postId), false);
    }

    /** `admin_delete_user`: an existing non-admin is removed together with all
        of that user's posts; an admin or an absent id changes nothing. */
    method DeleteUser(userId: nat) returns (deleted: bool)
      requires Valid()
      modifies this
      ensures Valid()
      ensures userCounter == old(userCounter) && postCounter == old(postCounter)
      ensures deleted <==> userId in old(users) && !old(users)[userId].isAdmin
      ensures deleted ==>
        && users == old(users) - {userId}
        && posts == Select(old(posts), Author(userId), false)
      ensures !deleted ==> users == old(users) && posts == old(posts)
      ensures old(Consistent()) ==> Consistent()
    {
      deleted := userId in users && !users[userId].isAdmin;
      if deleted {
        SelectKeepsIdsIncreasing(posts, Author(userId), false, postCounter);
        if Consistent() {
          CascadeKeepsConsistent(users, posts, userId);
        }
        posts := Select(posts, Author(userId), false);
        users := users - {userId};
      }
    }

    /** `admin_make_admin`: an existing user gets the admin flag (never removed
        again); an absent id changes nothing. */
    method MakeAdmin(userId: nat) returns (found: bool)
      requires Valid()
      modifies this
      ensures Valid()
      ensures posts == old(posts) && userCounter == old(userCounter) && postCounter == old(postCounter)
      ensures found <==> userId in old(users)
      ensures found ==> users == old(users)[userId := old(users)[userId].(isAdmin := true)]
      ensures !found ==> users == old(users)
      ensures found && old(users)[userId].isAdmin ==> users == old(users)
      ensures forall k :: k in old(users) && old(users)[k].isAdmin ==> users[k].isAdmin
      ensures old(Consistent()) ==> Consistent()
    {
      found := userId in users;
      if found {
        ReplaceKeepsUsersInvariant(users, userCounter, userId, users[userId].(isAdmin := true));
        users := users[userId := users[userId].(isAdmin := true)];
      }
    }
  }
}
