# Post feed join of the micro-post router

This project models the `getAll` query of the post router of a small
micro-post web application. The query does four things:

1. It fetches up to 100 posts from the post store.
2. It asks the identity service for the users whose ids are the posts' author ids (`limit: 100`).
3. It projects each returned user onto the three public fields `id`, `username` and `profileImageUrl`. This is `filterUserForClient`.
4. It pairs every post with the first projected user whose id equals the post's `authorId`. When no user matches, the author is `undefined`.

The two remote fetches are not modelled as calls:

- the post store's answer is the input sequence `posts`;
- the identity service's answer is the input sequence `users`;
- the request sent to the identity service is the value `UserListQueryFor(posts)`.

The 100-item caps that the services enforce are preconditions of `GetAll`.
They are not behaviour of the join.

Files:

- `wrappers.dfy`: module `Wrappers`, the `Option` type. `None` stands for JavaScript's `undefined` and for a null `username`.
- `posts.dfy`: module `Posts`. It holds the records (`Post`, `User`, `ClientUser`, `FeedEntry`, `UserListQuery`), the functions `FilterUserForClient`, `FilterUsers`, `AuthorIds`, `UserListQueryFor`, `FindFirst`, `Assemble` and `GetAll`, and the lemmas about them.

`createdAt` is an `int` that the join never reads. `User` carries three
private fields (`firstName`, `lastName`, `emailAddresses`). They stand for the
identity service's full user record, which the projection must drop.

### Behaviour worth noting

- The request is `posts.map(post => post.authorId)`, with duplicates kept (`RequestKeepsDuplicates`).
- The identity call is made even for an empty post list. `UserListQueryFor([])` is a query with an empty id list.
- The author is the first user in the returned list whose id matches (`FindFirst`, `FindFirstIsLowestIndex`). This is the same as a lookup by key only when the returned ids are distinct (`FindFirstDistinctIds`).

## Model

| member | source | states |
|---|---|---|
| `Posts.FilterUserForClient` | src/server/api/routers/posts.ts:7-11 | the client user holds the user's id, username and profileImageUrl, unchanged |
| `Posts.FilterUserKeepsExactlyPublicFields` | src/server/api/routers/posts.ts:7-11 | two users project to the same client user exactly when they agree on `id`, `username` and `profileImageUrl`, so the projection keeps those three fields and nothing else |
| `Posts.FilterUserIgnoresPrivateFields` | src/server/api/routers/posts.ts:7-11 | each public field is copied unchanged, and changing the private fields does not change the projection |
| `Posts.FilterUsers` | src/server/api/routers/posts.ts:24 | `users.map(filterUserForClient)` has the same length as `users`, and element i is the projection of `users[i]`, so order is kept |
| `Posts.AuthorIds` | src/server/api/routers/posts.ts:20 | one id per post, in post order: element i is `posts[i].authorId` |
| `Posts.UserListQueryFor` | src/server/api/routers/posts.ts:19-22 | the identity-service request asks for the posts' author ids in post order, one per post, with a limit of 100 |
| `Posts.RequestCoversExactlyTheAuthors` | src/server/api/routers/posts.ts:20 | every post's author id is in the request, and every id in the request is some post's author id |
| `Posts.RequestKeepsDuplicates` | src/server/api/routers/posts.ts:20 | for any two posts with the same author, the request holds that author's id at both posts' positions: no deduplication |
| `Posts.FindFirst` | src/server/api/routers/posts.ts:28 | `find` gives no user exactly when no user has the id; a returned user has the id, is in the list, and no earlier user has the id |
| `Posts.FindFirstIsHeadOfMatches` | src/server/api/routers/posts.ts:28 | the result of `find` equals the head of the list of all matching users, or no user when that list is empty |
| `Posts.FindFirstIsLowestIndex` | src/server/api/routers/posts.ts:28 | if index j holds a matching user and no earlier index does, `find` returns the user at j |
| `Posts.FindFirstDistinctIds` | src/server/api/routers/posts.ts:28 | when the ids in the list are distinct, `find` on a user's id returns that user |
| `Posts.Assemble` | src/server/api/routers/posts.ts:26-29 | one entry per post; entry i holds `posts[i]` unchanged and the first user whose id is `posts[i].authorId` |
| `Posts.AssembleAppend` | src/server/api/routers/posts.ts:26-29 | the join of a concatenation is the concatenation of the joins, so entries are never reordered |
| `Posts.GetAll` | src/server/api/routers/posts.ts:14-30 | with at most 100 posts and 100 users: one entry per post and at most 100 entries; entry i holds `posts[i]`; a found author has id `posts[i].authorId`; the author is absent exactly when no returned user has that id; a found author is the projection of the lowest-index returned user with that id |
| `Posts.GetAllOfNoPosts` | src/server/api/routers/posts.ts:26-29 | no posts give an empty answer |
| `Posts.GetAllSameAuthorIdSameAuthor` | src/server/api/routers/posts.ts:28 | two posts with the same author id get the same author, or both get none |
| `Posts.GetAllFullyResolved` | src/server/api/routers/posts.ts:19-29 | when the identity service returns a user for every requested id, every entry has an author |
| `Posts.GetAllKeepsUnresolvedPost` | src/server/api/routers/posts.ts:28 | a post whose author was not returned stays at its position, with no author, and no error occurs |
| `Posts.GetAllTwoAuthors` | src/server/api/routers/posts.ts:14-30 | worked example: posts by `a` and `b`, users returned in the order `b`, `a`; the answer keeps post order and pairs each post with its author's public fields |

## Left out

- Failing fetches are not modelled. Both remote calls are awaited with no error handling, so if either call fails the whole `getAll` call fails and no post is returned. The model covers only calls that succeed.
- The post-store fetch (`findMany({take: 100})`) is not modelled. Its answer, in whatever order the store returns it, is the input `posts`. Its 100-post cap is a precondition.
- The identity-service fetch (`getUserList`) is not modelled. Its answer is the input `users`, in any order, possibly without some requested ids. Its 100-user cap is a precondition.
- Asynchronous suspension, request context, authentication and caching are not modelled. They belong to the framework and the external services.
- The full user record of the identity service is not modelled. Three private fields stand in for the rest.
- The other procedures that the pages call (`posts.create`, `posts.getPostById`, `posts.getPostsByUserId`, `profile.getUserByUsername`) are not part of this model. Their server code is not among the router files modelled here.
- The pages and components (`index.tsx`, `[slug].tsx`, `post/[id].tsx`, `_app.tsx`, `layout.tsx`, `postview.tsx`) are not modelled. They are rendering and UI state. The relative-time display is a call into a date library.
- The example router (`example.ts`) is not modelled. It is a greeting template and a pass-through query.
