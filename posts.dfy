/** The post router's `getAll` query: fetch up to 100 posts, ask the identity
    service for the users who wrote them, project each user down to the fields
    the client may see, and pair every post with the first user whose id is the
    post's author id.

    The two remote fetches are not modelled as calls: the post store's answer
    is the input `posts`, the identity service's answer the input `users`, and
    the request sent to the identity service is the value `UserListQueryFor(posts)`. */
module Posts {

  import opened Wrappers

  /** A stored post, passed through the join untouched. `createdAt` is an
      opaque timestamp that the join never looks at. */
  datatype Post = Post(id: string, content: string, authorId: string, createdAt: int)

  /** A user record as the identity service returns it. Besides the three
      public fields it carries private ones (names, e-mail addresses) that
      must not reach the client. */
  datatype User = User(
    id: string,
    username: Option<string>,
    profileImageUrl: string,
    firstName: Option<string>,
    lastName: Option<string>,
    emailAddresses: seq<string>)

  /** The public projection of a user that is sent to the client. */
  datatype ClientUser = ClientUser(id: string, username: Option<string>, profileImageUrl: string)

  /** One element of the `getAll` answer: a post and its author, if found. */
  datatype FeedEntry = FeedEntry(post: Post, author: Option<ClientUser>)

  /** The argument of the identity service's `getUserList` call. */
  datatype UserListQuery = UserListQuery(userId: seq<string>, limit: nat)

  /** Page size of both fetches (`take: 100`, `limit: 100`). */
  const FetchLimit: nat := 100

  // ---------------------------------------------------------------------------
  // Projection

  /** `filterUserForClient`: keep the id, the username and the avatar URL. */
  function FilterUserForClient(user: User): (r: ClientUser)
    ensures r.id == user.id && r.username == user.username && r.profileImageUrl == user.profileImageUrl
  {
    ClientUser(user.id, user.username, user.profileImageUrl)
  }

  /** The projection depends on the three public fields and on nothing else:
      two users project alike exactly when they agree on those fields. */
  lemma FilterUserKeepsExactlyPublicFields(u: User, v: User)
    ensures FilterUserForClient(u) == FilterUserForClient(v)
      <==> u.id == v.id && u.username == v.username && u.profileImageUrl == v.profileImageUrl
  {
  }

  /** The projection copies each public field unchanged, whatever the private
      fields hold. */
  lemma FilterUserIgnoresPrivateFields(u: User, firstName: Option<string>, lastName: Option<string>, emails: seq<string>)
    ensures FilterUserForClient(u.(firstName := firstName, lastName := lastName, emailAddresses := emails))
         == FilterUserForClient(u)
    ensures FilterUserForClient(u).id == u.id
    ensures FilterUserForClient(u).username == u.username
    ensures FilterUserForClient(u).profileImageUrl == u.profileImageUrl
  {
  }

  /** `users.map(filterUserForClient)`: same length, same order, each element
      projected. */
  function FilterUsers(users: seq<User>): (r: seq<ClientUser>)
    ensures |r| == |users|
    ensures forall i :: 0 <= i < |users| ==> r[i] == FilterUserForClient(users[i])
  {
    if |users| == 0 then [] else [FilterUserForClient(users[0])] + FilterUsers(users[1..])
  }

  // ---------------------------------------------------------------------------
  // The identity-service request

  /** `posts.map((post) => post.authorId)`: one id per post, in post order,
      duplicates kept. */
  function AuthorIds(posts: seq<Post>): (ids: seq<string>)
    ensures |ids| == |posts|
    ensures forall i :: 0 <= i < |posts| ==> ids[i] == posts[i].authorId
  {
    if |posts| == 0 then [] else [posts[0].authorId] + AuthorIds(posts[1..])
  }

  /** The argument of `getUserList`: the author ids of the fetched posts and a
      page limit of 100. */
  function UserListQueryFor(posts: seq<Post>): (q: UserListQuery)
    ensures q.limit == FetchLimit
    ensures |q.userId| == |posts|
    ensures forall i :: 0 <= i < |posts| ==> q.userId[i] == posts[i].authorId
  {
    UserListQuery(AuthorIds(posts), FetchLimit)
  }

  /** Every post's author is asked for, and nothing else is asked for. */
  lemma RequestCoversExactlyTheAuthors(posts: seq<Post>)
    ensures forall i :: 0 <= i < |posts| ==> posts[i].authorId in UserListQueryFor(posts).userId
    ensures forall id :: id in UserListQueryFor(posts).userId ==> exists i :: 0 <= i < |posts| && posts[i].authorId == id
  {
  }

  /** The request is not deduplicated: whenever two posts share an author,
      that author's id sits in the request at both posts' positions. */
  lemma RequestKeepsDuplicates(posts: seq<Post>, i: nat, k: nat)
    requires i < k < |posts| && posts[i].authorId == posts[k].authorId
    ensures |UserListQueryFor(posts).userId| == |posts|
    ensures UserListQueryFor(posts).userId[i] == posts[i].authorId
    ensures UserListQueryFor(posts).userId[k] == posts[i].authorId
  {
  }

  // ---------------------------------------------------------------------------
  // First match

  /** `filteredUsers.find((user) => user.id === authorId)`: the user of lowest
      index whose id is `authorId`, or `None` when there is none. */
  function FindFirst(users: seq<ClientUser>, authorId: string): (r: Option<ClientUser>)
    ensures r.None? <==> forall j :: 0 <= j < |users| ==> users[j].id != authorId
    ensures r.Some? ==> r.value.id == authorId
    ensures r.Some? ==> exists j :: 0 <= j < |users| && users[j] == r.value
                           && forall k :: 0 <= k < j ==> users[k].id != authorId
  {
    if |users| == 0 then None
    else if users[0].id == authorId then Some(users[0])
    else
      var r := FindFirst(users[1..], authorId);
      assert r.Some? ==> exists j :: 1 <= j < |users| && users[j] == r.value
                          && forall k :: 0 <= k < j ==> users[k].id != authorId
      by {
        if r.Some? {
          var j :| 0 <= j < |users[1..]| && users[1..][j] == r.value
                  && forall k :: 0 <= k < j ==> users[1..][k].id != authorId;
          assert users[j + 1] == r.value;
          forall k | 0 <= k < j + 1 ensures users[k].id != authorId {
            if k > 0 { assert users[k] == users[1..][k - 1]; }
          }
        }
      }
      r
  }

  /** Reference definition of the matching users: all users with the given
      id, in list order. */
  function Matches(users: seq<ClientUser>, authorId: string): (r: seq<ClientUser>)
  {
    if |users| == 0 then []
    else if users[0].id == authorId then [users[0]] + Matches(users[1..], authorId)
    else Matches(users[1..], authorId)
  }

  /** `FindFirst` returns the head of the list of matching users, and `None`
      exactly when that list is empty. */
  lemma {:induction false} FindFirstIsHeadOfMatches(users: seq<ClientUser>, authorId: string)
    ensures FindFirst(users, authorId)
         == if Matches(users, authorId) == [] then None else Some(Matches(users, authorId)[0])
  {
    if |users| > 0 && users[0].id != authorId {
      FindFirstIsHeadOfMatches(users[1..], authorId);
    }
  }

  /** First-match semantics pin the result down: any index `j` holding a user
      with the id, with no such user before it, is the one `FindFirst` returns. */
  lemma FindFirstIsLowestIndex(users: seq<ClientUser>, authorId: string, j: nat)
    requires j < |users| && users[j].id == authorId
    requires forall k :: 0 <= k < j ==> users[k].id != authorId
    ensures FindFirst(users, authorId) == Some(users[j])
  {
  }

  /** When the identity service returns each id at most once, the match is the
      one user carrying the id, wherever it sits in the list. */
  lemma FindFirstDistinctIds(users: seq<ClientUser>, j: nat)
    requires j < |users|
    requires forall a, b :: 0 <= a < b < |users| ==> users[a].id != users[b].id
    ensures FindFirst(users, users[j].id) == Some(users[j])
  {
    FindFirstIsLowestIndex(users, users[j].id, j);
  }

  // ---------------------------------------------------------------------------
  // The join

  /** `posts.map((post) => ({ post, author: filteredUsers.find(...) }))`. */
  function Assemble(posts: seq<Post>, filteredUsers: seq<ClientUser>): (r: seq<FeedEntry>)
    ensures |r| == |posts|
    ensures forall i :: 0 <= i < |posts| ==> r[i].post == posts[i]
    ensures forall i :: 0 <= i < |posts| ==> r[i].author == FindFirst(filteredUsers, posts[i].authorId)
  {
    if |posts| == 0 then []
    else [FeedEntry(posts[0], FindFirst(filteredUsers, posts[0].authorId))] + Assemble(posts[1..], filteredUsers)
  }

  /** The join works post by post: joining a concatenation is concatenating
      the joins, so no entry moves relative to another. */
  lemma AssembleAppend(p: seq<Post>, q: seq<Post>, filteredUsers: seq<ClientUser>)
    ensures Assemble(p + q, filteredUsers) == Assemble(p, filteredUsers) + Assemble(q, filteredUsers)
  {
  }

  /** The `getAll` answer for the posts the store returned and the users the
      identity service returned for `UserListQueryFor(posts)`. */
  function GetAll(posts: seq<Post>, users: seq<User>): (r: seq<FeedEntry>)
    requires |posts| <= FetchLimit
    requires |users| <= FetchLimit
    // one entry per post, in post order, the post unchanged
    ensures |r| == |posts| && |r| <= FetchLimit
    ensures forall i :: 0 <= i < |r| ==> r[i].post == posts[i]
    // a found author is the author of that post
    ensures forall i :: 0 <= i < |r| && r[i].author.Some? ==> r[i].author.value.id == posts[i].authorId
    // an author is missing exactly when the identity service returned no such user
    ensures forall i :: 0 <= i < |r| ==>
              (r[i].author.None? <==> forall j :: 0 <= j < |users| ==> users[j].id != posts[i].authorId)
    // a found author is the projection of the first returned user with that id
    ensures forall i :: 0 <= i < |r| && r[i].author.Some? ==>
              exists j :: 0 <= j < |users| && users[j].id == posts[i].authorId
                && r[i].author.value == FilterUserForClient(users[j])
                && forall k :: 0 <= k < j ==> users[k].id != posts[i].authorId
  {
    var filteredUsers := FilterUsers(users);
    var r := Assemble(posts, filteredUsers);
    assert forall i :: 0 <= i < |r| && r[i].author.Some? ==>
              exists j :: 0 <= j < |users| && users[j].id == posts[i].authorId
                && r[i].author.value == FilterUserForClient(users[j])
                && forall k :: 0 <= k < j ==> users[k].id != posts[i].authorId
    by {
      forall i | 0 <= i < |r| && r[i].author.Some?
        ensures exists j :: 0 <= j < |users| && users[j].id == posts[i].authorId
                  && r[i].author.value == FilterUserForClient(users[j])
                  && forall k :: 0 <= k < j ==> users[k].id != posts[i].authorId
      {
        var j :| 0 <= j < |filteredUsers| && filteredUsers[j] == r[i].author.value
                 && forall k :: 0 <= k < j ==> filteredUsers[k].id != posts[i].authorId;
        assert filteredUsers[j] == FilterUserForClient(users[j]);
        forall k | 0 <= k < j ensures users[k].id != posts[i].authorId {
          assert filteredUsers[k] == FilterUserForClient(users[k]);
        }
      }
    }
    r
  }

  // ---------------------------------------------------------------------------
  // Consequences of the join's contract

  /** No posts, no entries. */
  lemma GetAllOfNoPosts(users: seq<User>)
    requires |users| <= FetchLimit
    ensures GetAll([], users) == []
  {
  }

  /** Posts with the same author id get the same author (or both none). */
  lemma GetAllSameAuthorIdSameAuthor(posts: seq<Post>, users: seq<User>, i: nat, k: nat)
    requires |posts| <= FetchLimit && |users| <= FetchLimit
    requires i < |posts| && k < |posts| && posts[i].authorId == posts[k].authorId
    ensures GetAll(posts, users)[i].author == GetAll(posts, users)[k].author
  {
  }

  /** When the identity service returned a user for every requested id, every
      entry has an author. */
  lemma GetAllFullyResolved(posts: seq<Post>, users: seq<User>)
    requires |posts| <= FetchLimit && |users| <= FetchLimit
    requires forall id :: id in UserListQueryFor(posts).userId ==> exists j :: 0 <= j < |users| && users[j].id == id
    ensures forall i :: 0 <= i < |posts| ==> GetAll(posts, users)[i].author.Some?
  {
    forall i | 0 <= i < |posts| ensures GetAll(posts, users)[i].author.Some? {
      var q := UserListQueryFor(posts);
      assert q.userId[i] == posts[i].authorId;
      assert posts[i].authorId in q.userId;
      var j :| 0 <= j < |users| && users[j].id == posts[i].authorId;
    }
  }

  /** A post whose author the identity service omitted is still in the
      answer, at its position, with no author. */
  lemma GetAllKeepsUnresolvedPost(posts: seq<Post>, users: seq<User>, i: nat)
    requires |posts| <= FetchLimit && |users| <= FetchLimit
    requires i < |posts|
    requires forall j :: 0 <= j < |users| ==> users[j].id != posts[i].authorId
    ensures GetAll(posts, users)[i] == FeedEntry(posts[i], None)
  {
  }

  /** A worked example: two posts by different authors, both authors known.
      The answer keeps the store's order and pairs each post with its author;
      the private fields are not part of it. */
  lemma GetAllTwoAuthors(t1: int, t2: int)
    ensures
      var p1 := Post("1", "hi", "a", t1);
      var p2 := Post("2", "yo", "b", t2);
      var alice := User("a", Some("alice"), "img-a", Some("Alice"), None, ["alice@example.org"]);
      var bob := User("b", Some("bob"), "img-b", None, None, []);
      GetAll([p1, p2], [bob, alice])
        == [FeedEntry(p1, Some(ClientUser("a", Some("alice"), "img-a"))),
            FeedEntry(p2, Some(ClientUser("b", Some("bob"), "img-b")))]
  {
  }
}
